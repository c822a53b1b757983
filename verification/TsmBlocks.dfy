/** The blocks of a TSM file: a field's values in chunks, each a run of times and a run of values with their checksums. */
module TsmBlocks {
  import opened Bytes
  import opened Words
  import opened Deltas
  import opened TsmIndex
  import Gorilla
  import GorillaDecoder
  import IntegerCoder
  import TimestampCoder
  import UnsignedCoder
  import BooleanCoder
  import Simple8b

  const MAX_BLOCK_VALUES := 1000

  type Crc = seq<Byte> -> nat

  datatype Vals = F64(f: seq<Word>) | I64(i: seq<Deltas.I64>) | U64(u: seq<Deltas.U64>) | Bool(b: seq<bool>)

  /** Times and as many values */
  datatype Block = Block(ts: seq<Deltas.I64>, vals: Vals)

  function Len(v: Vals): nat {
    match v case F64(f) => |f| case I64(i) => |i| case U64(u) => |u| case Bool(b) => |b|
  }

  function KindOf(v: Vals): ValueType {
    match v case F64(_) => Float case I64(_) => Integer case U64(_) => Unsigned case Bool(_) => Boolean
  }

  function Part(v: Vals, start: nat, end: nat): (r: Vals)
    requires start <= end <= Len(v)
    ensures Len(r) == end - start && KindOf(r) == KindOf(v)
  {
    match v
    case F64(f) => F64(f[start..end])
    case I64(i) => I64(i[start..end])
    case U64(u) => U64(u[start..end])
    case Bool(b) => Bool(b[start..end])
  }

  // ------------------------------------------------------------------------ bits and bytes

  function Octets(b: seq<Byte>): (o: seq<Octet>)
    ensures |o| == |b|
  {
    seq(|b|, i requires 0 <= i < |b| => FromNat(b[i], 8))
  }

  function FromOctets(o: seq<Octet>): (b: seq<Byte>)
    ensures |b| == |o|
  {
    Simple8b.EightBits();
    seq(|o|, i requires 0 <= i < |o| => ToNat(o[i]))
  }

  lemma OctetsBack(o: seq<Octet>)
    ensures Octets(FromOctets(o)) == o
  {
    forall i | 0 <= i < |o| ensures Octets(FromOctets(o))[i] == o[i] { FromNatToNat(o[i]); }
  }

  // ------------------------------------------------------------------------ values

  /** The decoder of the type makes these values of the bytes. */
  ghost predicate Reads(b: seq<Byte>, v: Vals, checked: bool) {
    match v
    case F64(f) => GorillaDecoder.ParseBlock(Octets(b)) == Gorilla.Some(f)
    case I64(i) => IntegerCoder.DecodedFrom(b, checked) == Values(i)
    case U64(u) => b != [] && IntegerCoder.DecodedFrom(b, checked) == Values(UnsignedCoder.AsSigned(u))
    case Bool(x) => x != [] && BooleanCoder.IsBlock(b, x)
  }

  ghost predicate Encodable(v: Vals) {
    v.F64? ==> Gorilla.Encodable(v.f)
  }

  ghost predicate SumsFit(s: seq<Deltas.I64>, checked: bool) {
    !(checked && IntegerCoder.UsesPacked(s) && !DiffsFit(s))
  }

  /** The coder of the type gives these values back. */
  ghost predicate Recoverable(v: Vals, checked: bool) {
    match v
    case F64(f) => f != [Gorilla.SENTINEL]
    case I64(i) => SumsFit(i, checked)
    case U64(u) => SumsFit(UnsignedCoder.AsSigned(u), checked)
    case Bool(_) => true
  }

  /** Half of `DataBlock::encode`: the values */
  method EncodeVals(v: Vals) returns (r: Option<seq<Byte>>)
    requires 0 < Len(v) <= MAX_BLOCK_VALUES
    ensures r.Some? <==> Encodable(v)
    ensures r.Some? ==> forall checked: bool :: Recoverable(v, checked) ==> Reads(r.value, v, checked)
  {
    hide IntegerCoder.Encoded, IntegerCoder.DecodedFrom, IntegerCoder.UsesPacked, DiffsFit, BooleanCoder.IsBlock,
      GorillaDecoder.ParseBlock, Gorilla.BlockBits, Gorilla.Holds, FromOctets, Octets, UnsignedCoder.AsSigned;
    match v
    case F64(f) =>
      var o := Gorilla.Encode(f);
      if o.None? {
        return None;
      }
      GorillaDecoder.BlockRoundTrip(f, o.value);
      OctetsBack(o.value);
      return Some(FromOctets(o.value));
    case I64(i) =>
      var b := IntegerCoder.Encode(i);
      IntegerCoder.IntegerRoundTrip(i, true);
      IntegerCoder.IntegerRoundTrip(i, false);
      return Some(b);
    case U64(u) =>
      var b := UnsignedCoder.Encode(u);
      IntegerCoder.IntegerRoundTrip(UnsignedCoder.AsSigned(u), true);
      IntegerCoder.IntegerRoundTrip(UnsignedCoder.AsSigned(u), false);
      IntegerCoder.NonEmpty(UnsignedCoder.AsSigned(u));
      return Some(b);
    case Bool(x) =>
      ShortVar(|x|);
      var b := BooleanCoder.Encode(x);
      return Some(b);
  }

  lemma ShortVar(n: nat)
    requires n <= MAX_BLOCK_VALUES
    ensures |Var(n)| <= 8
  {
  }

  /** The decoder the reader picks by type, into a vector with room for `n` values */
  method DecodeVals(kind: ValueType, b: seq<Byte>, n: nat, checked: bool) returns (r: Option<Vals>)
    ensures forall v :: KindOf(v) == kind && Len(v) == n && Reads(b, v, checked) ==> r == Some(v)
  {
    hide IntegerCoder.DecodedFrom, BooleanCoder.IsBlock, GorillaDecoder.ParseBlock, Octets, UnsignedCoder.AsSigned,
      UnsignedCoder.AsUnsigned;
    r := None;
    if kind == Float {
      var f := GorillaDecoder.Decode(Octets(b));
      r := if f.None? then None else Some(F64(f.value));
    } else if kind == Integer {
      var i := IntegerCoder.Decode(b, checked);
      r := if i.Values? then Some(I64(i.v)) else None;
    } else if kind == Boolean {
      var x := BooleanCoder.Decode(b);
      r := if x.Booleans? then Some(Bool(x.v)) else None;
    } else if kind == Unsigned {
      var u := UnsignedCoder.Decode(b, n, checked);
      r := if u.Unsigned? then Some(U64(u.v)) else None;
      forall v: Vals | KindOf(v) == kind && Len(v) == n && Reads(b, v, checked) ensures r == Some(v) {
        UnsignedCoder.AsUnsignedOfSigned(v.u);
        assert |UnsignedCoder.AsSigned(v.u)| == n;
      }
    }
  }

  // ------------------------------------------------------------------------ chunks

  function Chunks(len: nat): nat
    requires len > 0
  {
    (len - 1) / MAX_BLOCK_VALUES + 1
  }

  /** Where chunk `i` ends: the first takes what is over, the others are full. */
  function End(len: nat, i: nat): nat {
    len % MAX_BLOCK_VALUES + i * MAX_BLOCK_VALUES
  }

  function Start(len: nat, i: nat): nat {
    if i == 0 then 0 else End(len, i - 1)
  }

  /** A length that is no multiple of 1000 is cut into chunks of at most 1000, one after the other, none left over. */
  lemma ChunksTile(len: nat, i: nat)
    requires len % MAX_BLOCK_VALUES != 0 && i < Chunks(len)
    ensures Start(len, i) < End(len, i) <= len && End(len, i) - Start(len, i) <= MAX_BLOCK_VALUES
    ensures Start(len, 0) == 0 && End(len, Chunks(len) - 1) == len && Start(len, i + 1) == End(len, i)
    ensures End(len, i) - Start(len, i) == if i == 0 then len % 1000 else 1000
  {
    assert len == len / MAX_BLOCK_VALUES * MAX_BLOCK_VALUES + len % MAX_BLOCK_VALUES;
    assert (len - 1) / MAX_BLOCK_VALUES == len / MAX_BLOCK_VALUES;
  }

  /** `time_range`: the first time and the last of a stretch; none where the program stops */
  function TimeRange(ts: seq<Deltas.I64>, start: nat, end: nat): Option<(Deltas.I64, Deltas.I64)> {
    if start < |ts| && 0 < end <= |ts| then Some((ts[start], ts[end - 1])) else None
  }

  ghost function Chunk(b: Block, i: nat): Block
    requires |b.ts| == Len(b.vals) && |b.ts| % MAX_BLOCK_VALUES != 0 && i < Chunks(|b.ts|)
  {
    ChunksTile(|b.ts|, i);
    var s, e := Start(|b.ts|, i), End(|b.ts|, i);
    Block(b.ts[s..e], Part(b.vals, s, e))
  }

  ghost predicate TimesFit(ts: seq<Deltas.I64>, checked: bool) {
    !(checked && ts != [] && !TimestampCoder.IsSteady(TimestampCoder.Raws(Diffs(ts))) && !DiffsFit(ts))
  }

  ghost predicate RecoverableChunk(c: Block, checked: bool) {
    TimesFit(c.ts, checked) && Recoverable(c.vals, checked)
  }

  /** The file has this chunk where the entry says. */
  ghost predicate ChunkAt(f: seq<Byte>, fb: FileBlock, c: Block, checked: bool) {
    && fb.offset + 4 <= fb.valOff && fb.valOff + 4 <= fb.offset + fb.size <= |f|
    && TimestampCoder.DecodedFrom(f[fb.offset + 4..fb.valOff], checked) == Values(c.ts)
    && Reads(f[fb.valOff + 4..fb.offset + fb.size], c.vals, checked)
  }

  /** Both runs of bytes have their checksums before them. */
  ghost predicate Sealed(f: seq<Byte>, fb: FileBlock, crc: Crc) {
    && fb.offset + 4 <= fb.valOff && fb.valOff + 4 <= fb.offset + fb.size <= |f|
    && f[fb.offset..fb.offset + 4] == ToBe(crc(f[fb.offset + 4..fb.valOff]), 4)
    && f[fb.valOff..fb.valOff + 4] == ToBe(crc(f[fb.valOff + 4..fb.offset + fb.size]), 4)
  }

  /** What the entry of a chunk says of it */
  ghost predicate Describes(fb: FileBlock, c: Block) {
    c.ts != [] && fb.kind == KindOf(c.vals) && fb.minTs == c.ts[0] && fb.maxTs == c.ts[|c.ts| - 1]
  }

  lemma ChunkStays(f: seq<Byte>, more: seq<Byte>, fb: FileBlock, c: Block, checked: bool)
    ensures ChunkAt(f, fb, c, checked) ==> ChunkAt(f + more, fb, c, checked)
  {
    hide TimestampCoder.DecodedFrom, Reads;
    if ChunkAt(f, fb, c, checked) {
      var g := f + more;
      assert g[fb.offset + 4..fb.valOff] == f[fb.offset + 4..fb.valOff];
      assert g[fb.valOff + 4..fb.offset + fb.size] == f[fb.valOff + 4..fb.offset + fb.size];
    }
  }

  lemma SealStays(f: seq<Byte>, more: seq<Byte>, fb: FileBlock, crc: Crc)
    requires Sealed(f, fb, crc)
    ensures Sealed(f + more, fb, crc)
  {
    hide ToBe;
    var g := f + more;
    assert g[fb.offset..fb.offset + 4] == f[fb.offset..fb.offset + 4];
    assert g[fb.offset + 4..fb.valOff] == f[fb.offset + 4..fb.valOff];
    assert g[fb.valOff..fb.valOff + 4] == f[fb.valOff..fb.valOff + 4];
    assert g[fb.valOff + 4..fb.offset + fb.size] == f[fb.valOff + 4..fb.offset + fb.size];
  }

  /** The bytes of one chunk */
  lemma Written(out: seq<Byte>, t: seq<Byte>, d: seq<Byte>, crc: Crc)
    ensures var f := out + ToBe(crc(t), 4) + t + ToBe(crc(d), 4) + d;
      var p, q := |out|, |out| + 4 + |t|;
      && |f| == q + 4 + |d| && f[p..p + 4] == ToBe(crc(t), 4) && f[p + 4..q] == t
      && f[q..q + 4] == ToBe(crc(d), 4) && f[q + 4..|f|] == d
  {
    hide ToBe;
    var h, k := ToBe(crc(t), 4), ToBe(crc(d), 4);
    var f := out + h + t + k + d;
    var p, q := |out|, |out| + 4 + |t|;
    assert f[p..p + 4] == h;
    assert f[p + 4..q] == t;
    assert f[q..q + 4] == k;
    assert f[q + 4..|f|] == d;
  }

  /** One turn of the loop of `write_one_to` */
  method WriteChunk(out: seq<Byte>, c: Block, times: (Deltas.I64, Deltas.I64), crc: Crc)
    returns (r: Option<(seq<Byte>, FileBlock)>)
    requires 0 < |c.ts| == Len(c.vals) <= MAX_BLOCK_VALUES && times == (c.ts[0], c.ts[|c.ts| - 1])
    ensures r.Some? <==> Encodable(c.vals)
    ensures r.Some? ==> out <= r.value.0 && Sealed(r.value.0, r.value.1, crc) && Describes(r.value.1, c)
    ensures r.Some? ==> r.value.1.offset == |out| && r.value.1.offset + r.value.1.size == |r.value.0|
    ensures r.Some? ==> forall checked: bool :: RecoverableChunk(c, checked) ==> ChunkAt(r.value.0, r.value.1, c, checked)
  {
    hide TimestampCoder.Encoded, TimestampCoder.DecodedFrom, Reads, Recoverable, ToBe, Encodable,
      TimestampCoder.IsSteady, TimestampCoder.Raws, Diffs, DiffsFit;
    var t := TimestampCoder.Encode(c.ts);
    TimestampCoder.TimestampRoundTrip(c.ts, true);
    TimestampCoder.TimestampRoundTrip(c.ts, false);
    var d := EncodeVals(c.vals);
    if d.None? {
      return None;
    }
    var offset := |out|;
    var f := out + ToBe(crc(t), 4) + t;
    var valOff := |f|;
    f := f + ToBe(crc(d.value), 4) + d.value;
    var size := |t| + |d.value| + 8;
    Written(out, t, d.value, crc);
    r := Some((f, FileBlock(times.0, times.1, offset, size, valOff, KindOf(c.vals))));
  }

  // ------------------------------------------------------------------------ fields

  ghost predicate Writable(b: Block) {
    |b.ts| == Len(b.vals) && |b.ts| % MAX_BLOCK_VALUES != 0
  }

  ghost predicate EncodableTo(b: Block, n: nat)
    requires Writable(b) && n <= Chunks(|b.ts|)
  {
    forall i :: 0 <= i < n ==> Encodable(Chunk(b, i).vals)
  }

  /** Entry by entry, the file has the first chunks of a block. */
  ghost predicate FieldAt(f: seq<Byte>, fbs: seq<FileBlock>, b: Block, crc: Crc)
    requires Writable(b)
  {
    && |fbs| <= Chunks(|b.ts|)
    && forall i :: 0 <= i < |fbs| ==> EntryAt(f, fbs[i], Chunk(b, i), crc)
  }

  ghost predicate EntryAt(f: seq<Byte>, fb: FileBlock, c: Block, crc: Crc) {
    && Describes(fb, c) && Sealed(f, fb, crc)
    && forall checked: bool :: RecoverableChunk(c, checked) ==> ChunkAt(f, fb, c, checked)
  }

  lemma EntryStays(f: seq<Byte>, more: seq<Byte>, fb: FileBlock, c: Block, crc: Crc)
    requires EntryAt(f, fb, c, crc)
    ensures EntryAt(f + more, fb, c, crc)
  {
    hide ChunkAt, Sealed, RecoverableChunk;
    SealStays(f, more, fb, crc);
    ChunkStays(f, more, fb, c, true);
    ChunkStays(f, more, fb, c, false);
  }

  lemma FieldStays(f: seq<Byte>, more: seq<Byte>, fbs: seq<FileBlock>, b: Block, crc: Crc)
    requires Writable(b) && FieldAt(f, fbs, b, crc)
    ensures FieldAt(f + more, fbs, b, crc)
  {
    hide EntryAt, Chunk;
    forall i | 0 <= i < |fbs| ensures EntryAt(f + more, fbs[i], Chunk(b, i), crc) {
      EntryStays(f, more, fbs[i], Chunk(b, i), crc);
    }
  }

  /** Bytes and entries, an error of a coder, or the program stopped */
  datatype Outcome<T> = Done(file: seq<Byte>, entries: T) | Failed | Stopped

  /**
   * `write_one_to`: it stops exactly if the number of values is a multiple of 1000, since the first chunk is then empty;
   * otherwise it is a coder that fails, or every chunk is in the file where its entry says. (Without overflow checks, one
   * less than no values is the greatest number.)
   */
  method WriteOneTo(out: seq<Byte>, b: Block, crc: Crc) returns (r: Outcome<seq<FileBlock>>)
    requires |b.ts| == Len(b.vals)
    ensures r.Stopped? <==> |b.ts| % MAX_BLOCK_VALUES == 0
    ensures r.Failed? <==> Writable(b) && !EncodableTo(b, Chunks(|b.ts|))
    ensures r.Done? ==> out <= r.file && FieldAt(r.file, r.entries, b, crc) && |r.entries| == Chunks(|b.ts|)
  {
    hide EntryAt, Encodable, Chunk, Start, Sealed, Describes, ChunkAt, RecoverableChunk;
    var len := |b.ts|;
    var n := (if len == 0 then TWO64 - 1 else len - 1) / MAX_BLOCK_VALUES + 1;
    var f, res: seq<FileBlock> := out, [];
    var i, last := 0, 0;
    FirstStart(len);
    while i < n
      invariant i <= n && |res| == i && last == Start(len, i) && out <= f
      invariant i > 0 ==> Writable(b)
      invariant Writable(b) ==> n == Chunks(len) && FieldAt(f, res, b, crc) && EncodableTo(b, i)
    {
      var start, end := last, End(len, i);
      last := end;
      var times := TimeRange(b.ts, start, end);
      if times.None? {
        if Writable(b) { ChunksTile(len, i); }
        return Stopped;
      }
      assert Writable(b);
      ChunksTile(len, i);
      hide End;
      ChunkIs(b, i);
      var w := WriteChunk(f, Block(b.ts[start..end], Part(b.vals, start, end)), times.value, crc);
      if w.None? {
        return Failed;
      }
      assert w.value.0 == f + w.value.0[|f|..];
      FieldStays(f, w.value.0[|f|..], res, b, crc);
      assert EntryAt(w.value.0, w.value.1, Chunk(b, i), crc) by {
        EntryIs(w.value.0, w.value.1, Chunk(b, i), crc);
      }
      f, res := w.value.0, res + [w.value.1];
      i := i + 1;
    }
    return Done(f, res);
  }

  lemma FirstStart(len: nat)
    ensures Start(len, 0) == 0
  {
  }

  lemma ChunkIs(b: Block, i: nat)
    requires Writable(b) && i < Chunks(|b.ts|)
    ensures var s, e := Start(|b.ts|, i), End(|b.ts|, i);
      s < e <= |b.ts| && Chunk(b, i) == Block(b.ts[s..e], Part(b.vals, s, e))
  {
    ChunksTile(|b.ts|, i);
  }

  lemma EntryIs(f: seq<Byte>, fb: FileBlock, c: Block, crc: Crc)
    requires Describes(fb, c) && Sealed(f, fb, crc)
    requires forall checked: bool :: RecoverableChunk(c, checked) ==> ChunkAt(f, fb, c, checked)
    ensures EntryAt(f, fb, c, crc)
  {
  }

  /** `TsmBlockReader::decode`: the two checksums are skipped */
  method ReadBlock(f: seq<Byte>, fb: FileBlock, checked: bool) returns (r: Option<Block>)
    requires fb.offset + 4 <= fb.valOff && fb.valOff + 4 <= fb.offset + fb.size <= |f|
    ensures forall c: Block :: KindOf(c.vals) == fb.kind && |c.ts| == Len(c.vals) && ChunkAt(f, fb, c, checked) ==> r == Some(c)
  {
    hide TimestampCoder.DecodedFrom, Reads;
    var data := f[fb.offset..fb.offset + fb.size];
    var len := fb.valOff - fb.offset - 4;
    SubSlice(f, fb.offset, fb.size, 4, 4 + len);
    SubSlice(f, fb.offset, fb.size, 8 + len, fb.size);
    assert data[8 + len..] == data[8 + len..fb.size];
    var ts := TimestampCoder.Decode(data[4..4 + len], checked);
    if !ts.Values? {
      return None;
    }
    var vals := DecodeVals(fb.kind, data[8 + len..], |ts.v|, checked);
    r := if vals.None? then None else Some(Block(ts.v, vals.value));
  }
}
