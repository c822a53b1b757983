/** Unsigned integers, through the coder of signed ones. */
module UnsignedCoder {
  import opened Bytes
  import opened Deltas
  import IntegerCoder

  /** The values, `Stopped` where the program stops, or `Corrupt` */
  datatype Outcome = Unsigned(v: seq<U64>) | Corrupt | Stopped

  function AsSigned(src: seq<U64>): (r: seq<I64>)
    ensures |r| == |src|
  {
    seq(|src|, i requires 0 <= i < |src| => AsI64(src[i]))
  }

  function AsUnsigned(src: seq<I64>): (r: seq<U64>)
    ensures |r| == |src|
  {
    seq(|src|, i requires 0 <= i < |src| => AsU64(src[i]))
  }

  /** `encode` */
  method Encode(src: seq<U64>) returns (out: seq<Byte>)
    ensures out == IntegerCoder.Encoded(AsSigned(src))
  {
    out := IntegerCoder.Encode(AsSigned(src));
  }

  /**
   * `decode` into a vector of this capacity: what is reserved is the number of values less the capacity, and a negative
   * number there stops the program.
   */
  method Decode(b: seq<Byte>, capacity: nat, checked: bool) returns (r: Outcome)
    ensures var d := IntegerCoder.DecodedFrom(b, checked);
      r == if b == [] then Unsigned([])
           else if d.Invalid? then Corrupt
           else if !d.Values? || capacity > |d.v| then Stopped
           else Unsigned(AsUnsigned(d.v))
  {
    hide IntegerCoder.DecodedFrom;
    if b == [] {
      return Unsigned([]);
    }
    var d := IntegerCoder.Decode(b, checked);
    if d.Invalid? {
      return Corrupt;
    }
    if !d.Values? || capacity > |d.v| {
      return Stopped;
    }
    var v: seq<U64> := [];
    for i := 0 to |d.v|
      invariant v == AsUnsigned(d.v)[..i]
    {
      v := v + [AsU64(d.v[i])];
    }
    return Unsigned(v);
  }

  lemma AsUnsignedOfSigned(src: seq<U64>)
    ensures AsUnsigned(AsSigned(src)) == src
  {
  }

  /**
   * Decoding undoes encoding exactly when the destination has no room to spare and, where overflow stops the program, no
   * packed difference overflows.
   */
  method EncodeThenDecode(src: seq<U64>, capacity: nat, checked: bool) returns (r: Outcome)
    ensures r == Unsigned(src) <==>
            || src == []
            || (capacity <= |src|
                && !(checked && IntegerCoder.UsesPacked(AsSigned(src)) && !DiffsFit(AsSigned(src))))
    ensures r != Unsigned(src) ==> r == Stopped
  {
    hide IntegerCoder.DecodedFrom, IntegerCoder.UsesPacked, DiffsFit;
    var b := Encode(src);
    IntegerCoder.IntegerRoundTrip(AsSigned(src), checked);
    AsUnsignedOfSigned(src);
    IntegerCoder.NonEmpty(AsSigned(src));
    hide IntegerCoder.Encoded, AsSigned, AsUnsigned;
    r := Decode(b, capacity, checked);
  }
}
