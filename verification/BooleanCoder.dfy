/** Booleans, one bit each, after a header and their number as a varint. */
module BooleanCoder {
  import opened Bytes
  import opened Packing
  import opened Words
  import opened Deltas
  import opened Simple8b

  const HEADER: Byte := 0x10

  /** Bit `i` of a number, counted from the lowest, made `v` */
  function PutBit(x: nat, i: nat, v: bool): nat
    decreases i
  {
    if i == 0 then 2 * (x / 2) + (if v then 1 else 0) else 2 * PutBit(x / 2, i - 1, v) + x % 2
  }

  lemma {:induction false} PutBitIs(x: nat, i: nat, v: bool, j: nat)
    ensures BitOf(PutBit(x, i, v), j) == if i == j then v else BitOf(x, j)
    decreases i
  {
    if i > 0 && j > 0 { PutBitIs(x / 2, i - 1, v, j - 1); }
  }

  lemma {:induction false} PutBitBound(x: nat, i: nat, v: bool, n: nat)
    requires x < Pow2(n) && i < n
    ensures PutBit(x, i, v) < Pow2(n)
    decreases i
  {
    if i > 0 { PutBitBound(x / 2, i - 1, v, n - 1); }
  }

  /** Setting a bit is the or with its mask. */
  lemma {:induction false} PutBitIsOr(x: nat, i: nat)
    ensures PutBit(x, i, true) == BitOr(x, Pow2(i))
    decreases i
  {
    if i > 0 {
      PutBitIsOr(x / 2, i - 1);
      assert Pow2(i) / 2 == Pow2(i - 1) && Pow2(i) % 2 == 0;
    } else {
      assert BitOr(x / 2, 0) == x / 2;
    }
  }

  lemma {:induction false} NoBits(i: nat)
    ensures !BitOf(0, i)
  {
    if i > 0 { NoBits(i - 1); }
  }

  /** Bit `n` of a block, the highest of each byte first */
  predicate BitAt(b: seq<Byte>, n: nat)
    requires n / 8 < |b|
  {
    BitOf(b[n / 8], 7 - n % 8)
  }

  /** Sets or clears bit `p` of a byte, counted from the highest. */
  function Put(b: Byte, p: nat, v: bool): (r: Byte)
    requires p < 8
    ensures r == PutBit(b, 7 - p, v)
  {
    EightBits();
    PutBitBound(b, 7 - p, v, 8);
    PutBitIsOr(b, 7 - p);
    if v then BitOr(b, Pow2(7 - p)) else PutBit(b, 7 - p, false)
  }

  ghost predicate Bits(b: seq<Byte>, from: nat, src: seq<bool>) {
    && from + |src| <= 8 * |b|
    && forall k :: 0 <= k < |src| ==> BitAt(b, from + k) == src[k]
  }

  ghost predicate ZeroFrom(b: seq<Byte>, n: nat) {
    forall m :: n <= m < 8 * |b| ==> !BitAt(b, m)
  }

  /** How many bytes that many bits take */
  function BytesFor(n: nat): (r: nat)
    ensures n <= 8 * r < n + 8
  {
    (n + 7) / 8
  }

  /** What a block of these booleans is: header, number, the bits, and as many zero bits as fill the last byte */
  ghost predicate IsBlock(b: seq<Byte>, src: seq<bool>) {
    var v := Var(|src|);
    && |b| == 1 + |v| + BytesFor(|src|)
    && b[0] == HEADER && b[1..1 + |v|] == v && Bits(b, 8 * (1 + |v|), src)
    && ZeroFrom(b, 8 * (1 + |v|) + |src|)
  }

  method PutAll(dst: array<Byte>, head: nat, src: seq<bool>)
    requires 8 * head + |src| <= 8 * dst.Length
    requires forall k :: head <= k < dst.Length ==> dst[k] == 0
    modifies dst
    ensures forall k :: 0 <= k < head ==> dst[k] == old(dst[k])
    ensures Bits(dst[..], 8 * head, src)
    ensures ZeroFrom(dst[..], 8 * head + |src|)
  {
    hide BitOf, PutBit;
    var n := 8 * head;
    forall m | n <= m < 8 * dst.Length ensures !BitAt(dst[..], m) { NoBits(7 - m % 8); }
    for i := 0 to |src|
      invariant n == 8 * head + i
      invariant forall k :: 0 <= k < head ==> dst[k] == old(dst[k])
      invariant Bits(dst[..], 8 * head, src[..i])
      invariant forall m :: n <= m < 8 * dst.Length ==> !BitAt(dst[..], m)
    {
      ghost var was := dst[..];
      var index := n / 8;
      dst[index] := Put(dst[index], n % 8, src[i]);
      forall m: nat | m < 8 * dst.Length ensures BitAt(dst[..], m) == if m == n then src[i] else BitAt(was, m) {
        PutBitIs(was[index], 7 - n % 8, src[i], 7 - m % 8);
      }
      n := n + 1;
    }
    assert src[..|src|] == src;
  }

  /** The header and the number, in a buffer of zeros */
  method PutHead(v: seq<Byte>, size: nat) returns (dst: array<Byte>)
    requires 1 + |v| <= size
    ensures fresh(dst) && dst.Length == size && dst[0] == HEADER
    ensures forall k :: 0 <= k < |v| ==> dst[1 + k] == v[k]
    ensures forall k :: 1 + |v| <= k < size ==> dst[k] == 0
  {
    dst := new Byte[size](_ => 0);
    dst[0] := HEADER;
    forall k | 0 <= k < |v| { dst[1 + k] := v[k]; }
  }

  /** `encode`, whose buffer has eight bytes for the number */
  method Encode(src: seq<bool>) returns (out: seq<Byte>)
    requires |Var(|src|)| <= 8
    ensures src == [] ==> out == []
    ensures src != [] ==> IsBlock(out, src)
  {
    if src == [] {
      return [];
    }
    hide BitAt, Var, Bits, ZeroFrom, IsBlock;
    var v := Var(|src|);
    var head := 1 + |v|;
    var dst := PutHead(v, 1 + 8 + BytesFor(|src|));
    PutAll(dst, head, src);
    var n := 8 * head + |src|;
    var length := n / 8 + if n % 8 > 0 then 1 else 0;
    out := dst[..length];
    Truncated(dst[..], length, v, src);
  }

  lemma Truncated(b: seq<Byte>, length: nat, v: seq<Byte>, src: seq<bool>)
    requires v == Var(|src|) && length == 1 + |v| + BytesFor(|src|) <= |b|
    requires b[0] == HEADER && (forall k :: 0 <= k < |v| ==> b[1 + k] == v[k]) && Bits(b, 8 * (1 + |v|), src)
    requires ZeroFrom(b, 8 * (1 + |v|) + |src|)
    ensures IsBlock(b[..length], src)
  {
    hide Bits, ZeroFrom, Var, BytesFor;
    Shorter(b, length, 8 * (1 + |v|), src);
    HeadSlice(b, length, v);
  }

  lemma Shorter(b: seq<Byte>, length: nat, from: nat, src: seq<bool>)
    requires Bits(b, from, src) && ZeroFrom(b, from + |src|) && length <= |b| && from + |src| <= 8 * length
    ensures Bits(b[..length], from, src) && ZeroFrom(b[..length], from + |src|)
  {
    hide BitAt;
    SameBits(b, length);
  }

  lemma SameBits(b: seq<Byte>, length: nat)
    requires length <= |b|
    ensures forall m :: 0 <= m < 8 * length ==> BitAt(b[..length], m) == BitAt(b, m)
  {
    hide BitOf;
  }

  lemma HeadSlice(b: seq<Byte>, length: nat, v: seq<Byte>)
    requires 1 + |v| <= length <= |b| && forall k :: 0 <= k < |v| ==> b[1 + k] == v[k]
    ensures b[..length][1..1 + |v|] == v
  {
    var t := b[..length][1..1 + |v|];
    assert |t| == |v|;
    forall k | 0 <= k < |v| ensures t[k] == v[k] { assert t[k] == b[1 + k]; }
  }

  /** The header is checked with an assertion, which stops the program. */
  datatype Decoded = Booleans(v: seq<bool>) | BadCount | Stopped

  /** `decode` */
  method Decode(b: seq<Byte>) returns (r: Decoded)
    ensures b == [] ==> r == Booleans([])
    ensures forall src :: src != [] && IsBlock(b, src) ==> r == Booleans(src)
    ensures b != [] && b[0] != HEADER ==> r == Stopped
  {
    hide BitAt, Var, UnVar;
    if b == [] {
      return Booleans([]);
    }
    if b[0] != HEADER {
      return Stopped;
    }
    var number := UnVar(b[1..]);
    if number.None? {
      NumberIs(b);
      return BadCount;
    }
    var from := 1 + number.value.1;
    var count := Min(8 * (|b| - from), number.value.0);
    var v := TakeBits(b, from, count);
    r := Booleans(v);
    forall src | src != [] && IsBlock(b, src) ensures v == src {
      NumberIs(b);
    }
  }

  lemma NumberIs(b: seq<Byte>)
    requires b != []
    ensures forall src :: IsBlock(b, src) ==> UnVar(b[1..]) == Some((|src|, |Var(|src|)|))
  {
    hide Var, UnVar, Bits;
    forall src | IsBlock(b, src) ensures UnVar(b[1..]) == Some((|src|, |Var(|src|)|)) {
      var v := Var(|src|);
      assert b[1..] == b[1..1 + |v|] + b[1 + |v|..];
      VarRoundTrip(|src|, b[1 + |v|..]);
    }
  }

  /** Byte by byte, from the highest bit of each, until there are enough */
  method TakeBits(b: seq<Byte>, from: nat, count: nat) returns (v: seq<bool>)
    requires from <= |b| && count <= 8 * (|b| - from)
    ensures |v| == count && Bits(b, 8 * from, v)
  {
    hide BitOf;
    v := [];
    var k := from;
    while k < |b|
      invariant from <= k <= |b| && |v| == Min(count, 8 * (k - from)) && Bits(b, 8 * from, v)
    {
      var i := 0;
      while i < 8 && |v| < count
        invariant i <= 8 && |v| == Min(count, 8 * (k - from) + i) && Bits(b, 8 * from, v)
      {
        assert (8 * from + |v|) / 8 == k && (8 * from + |v|) % 8 == i;
        v := v + [BitOf(b[k], 7 - i)];
        i := i + 1;
      }
      k := k + 1;
    }
  }

  /** Decoding undoes encoding. */
  method EncodeThenDecode(src: seq<bool>) returns (r: Decoded)
    requires |Var(|src|)| <= 8
    ensures r == Booleans(src)
  {
    hide IsBlock;
    var b := Encode(src);
    r := Decode(b);
  }
}
