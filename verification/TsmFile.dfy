/** A whole TSM file: header, blocks, index and footer, and reading it back. */
module TsmFile {
  import opened Bytes
  import opened TsmIndex
  import opened TsmBlocks
  import Deltas

  const TSM_MAGIC := 0x1346613
  const VERSION: Byte := 1

  /** A field's id and its values */
  datatype Series = Series(id: Deltas.U64, block: Block)

  ghost predicate AllWritable(ss: seq<Series>) {
    forall j :: 0 <= j < |ss| ==> Writable(ss[j].block)
  }

  ghost predicate EncodableBlock(b: Block)
    requires Writable(b)
  {
    EncodableTo(b, Chunks(|b.ts|))
  }

  /** The file has a series where its index entries say. */
  ghost predicate SeriesAt(f: seq<Byte>, field: Field, s: Series, crc: Crc)
    requires Writable(s.block)
  {
    field.id == s.id && |field.blocks| == Chunks(|s.block.ts|) && FieldAt(f, field.blocks, s.block, crc)
  }

  ghost predicate AllAt(f: seq<Byte>, fields: seq<Field>, ss: seq<Series>, crc: Crc)
  {
    AllWritable(ss) && |fields| <= |ss| && forall j :: 0 <= j < |fields| ==> SeriesAt(f, fields[j], ss[j], crc)
  }

  lemma AllStay(f: seq<Byte>, more: seq<Byte>, fields: seq<Field>, ss: seq<Series>, crc: Crc)
    requires AllAt(f, fields, ss, crc)
    ensures AllAt(f + more, fields, ss, crc)
  {
    hide FieldAt;
    forall j | 0 <= j < |fields| ensures SeriesAt(f + more, fields[j], ss[j], crc) {
      FieldStays(f, more, fields[j].blocks, ss[j].block, crc);
    }
  }

  ghost predicate Good(s: Series) {
    Writable(s.block) && EncodableBlock(s.block)
  }

  /** As many values as times */
  ghost predicate Even(ss: seq<Series>) {
    forall j :: 0 <= j < |ss| ==> |ss[j].block.ts| == Len(ss[j].block.vals)
  }

  /** All is well before the series at `j`. */
  ghost predicate FirstBad(ss: seq<Series>, j: nat) {
    j < |ss| && !Good(ss[j]) && forall k :: 0 <= k < j ==> Good(ss[k])
  }

  /** `TsmBlockWriter::write_to`, in whatever order the map gives its fields */
  method WriteBlocks(out: seq<Byte>, ss: seq<Series>, crc: Crc) returns (r: Outcome<seq<Field>>)
    requires Even(ss)
    ensures r.Stopped? ==> exists j: nat :: FirstBad(ss, j) && !Writable(ss[j].block)
    ensures r.Failed? ==> exists j: nat :: FirstBad(ss, j) && Writable(ss[j].block)
    ensures r.Done? ==> forall j :: 0 <= j < |ss| ==> Good(ss[j])
    ensures r.Done? ==> out <= r.file && |r.entries| == |ss| && AllAt(r.file, r.entries, ss, crc)
  {
    hide FieldAt, EncodableTo;
    var f, fields: seq<Field> := out, [];
    for j := 0 to |ss|
      invariant out <= f && |fields| == j
      invariant forall k :: 0 <= k < j ==> Good(ss[k])
      invariant AllAt(f, fields, ss[..j], crc)
    {
      var w := WriteOneTo(f, ss[j].block, crc);
      if !w.Done? {
        assert FirstBad(ss, j);
        return if w.Stopped? then Stopped else Failed;
      }
      assert w.file == f + w.file[|f|..];
      AllStay(f, w.file[|f|..], fields, ss[..j], crc);
      f, fields := w.file, fields + [Field(ss[j].id, w.entries)];
      assert ss[..j + 1] == ss[..j] + [ss[j]];
    }
    assert ss[..|ss|] == ss;
    return Done(f, fields);
  }

  /** The order of the map that the index is written from: every place once */
  ghost predicate Order(order: seq<nat>, n: nat) {
    && |order| == n
    && (forall k :: 0 <= k < n ==> order[k] < n)
    && (forall k, l :: 0 <= k < l < n ==> order[k] != order[l])
    && (forall j: nat :: j < n ==> j in order)
  }

  function InOrder<T>(s: seq<T>, order: seq<nat>): (r: seq<T>)
    requires |order| == |s| && forall k :: 0 <= k < |order| ==> order[k] < |s|
    ensures |r| == |s| && forall k :: 0 <= k < |r| ==> r[k] == s[order[k]]
  {
    seq(|order|, k requires 0 <= k < |order| => s[order[k]])
  }

  /**
   * The file: header, blocks, index in an order of its own, and footer. It is written exactly if every series can be,
   * and else the first that cannot be decides between a stop and an error.
   */
  method WriteTsm(ss: seq<Series>, order: seq<nat>, bloom: seq<Byte>, crc: Crc)
    returns (r: Outcome<seq<Field>>, ghost before: seq<Byte>)
    requires Even(ss) && Order(order, |ss|) && |bloom| == BLOOM_FILTER_SIZE
    ensures r.Stopped? ==> exists j: nat :: FirstBad(ss, j) && !Writable(ss[j].block)
    ensures r.Failed? ==> exists j: nat :: FirstBad(ss, j) && Writable(ss[j].block)
    ensures r.Done? ==> forall j :: 0 <= j < |ss| ==> Good(ss[j])
    ensures r.Done? ==>
      && ToBe(TSM_MAGIC, 4) + [VERSION] <= r.file
      && |r.entries| == |ss| && AllAt(r.file, r.entries, InOrder(ss, order), crc)
      && (forall j :: 0 <= j < |ss| ==> r.entries[j].blocks != [])
      && r.file == before + IndexBytes(r.entries) + bloom + ToBe(|before|, 8)
  {
    hide ToBe, SeriesAt, EncodableBlock, IndexBytes;
    var header := ToBe(TSM_MAGIC, 4) + [VERSION];
    var w := WriteBlocks(header, ss, crc);
    before := [];
    if !w.Done? {
      return w, before;
    }
    before := w.file;
    var fields := InOrder(w.entries, order);
    ghost var ordered := InOrder(ss, order);
    forall j | 0 <= j < |ss| ensures fields[j].blocks != [] { HasChunk(before, fields[j], ordered[j], crc); }
    var f := WriteIndex(w.file, fields);
    f := f + bloom + ToBe(|w.file|, 8);
    assert f == before + (IndexBytes(fields) + bloom + ToBe(|before|, 8));
    AllStay(before, IndexBytes(fields) + bloom + ToBe(|before|, 8), fields, ordered, crc);
    r := Done(f, fields);
  }

  lemma HasChunk(f: seq<Byte>, field: Field, s: Series, crc: Crc)
    requires Writable(s.block) && SeriesAt(f, field, s, crc)
    ensures field.blocks != []
  {
  }

  // ------------------------------------------------------------------------ reading it back

  /** A chunk under the key of its field */
  datatype Keyed = Keyed(key: seq<Byte>, chunk: Block)

  ghost function SeriesChunks(s: Series, k: nat): seq<Keyed>
    requires Writable(s.block) && k <= Chunks(|s.block.ts|)
    decreases Chunks(|s.block.ts|) - k
  {
    if k == Chunks(|s.block.ts|) then []
    else [Keyed(ToBe(s.id, 8), Chunk(s.block, k))] + SeriesChunks(s, k + 1)
  }

  ghost function AllChunks(ss: seq<Series>): seq<Keyed>
    requires AllWritable(ss)
  {
    if ss == [] then [] else SeriesChunks(ss[0], 0) + AllChunks(ss[1..])
  }

  ghost predicate Recovers(s: Series, checked: bool)
    requires Writable(s.block)
  {
    forall i :: 0 <= i < Chunks(|s.block.ts|) ==> RecoverableChunk(Chunk(s.block, i), checked)
  }

  /** An entry of the index and the chunk it is for */
  ghost predicate Finds(f: seq<Byte>, e: IndexEntry, k: Keyed, checked: bool) {
    && e.key == k.key && e.block.kind == KindOf(k.chunk.vals) && |k.chunk.ts| == Len(k.chunk.vals)
    && ChunkAt(f, e.block, k.chunk, checked)
  }

  ghost predicate AllFind(f: seq<Byte>, es: seq<IndexEntry>, ks: seq<Keyed>, checked: bool) {
    |es| == |ks| && forall i :: 0 <= i < |es| ==> Finds(f, es[i], ks[i], checked)
  }

  lemma {:induction false} SeriesFinds(f: seq<Byte>, field: Field, s: Series, k: nat, crc: Crc, checked: bool)
    requires Writable(s.block) && SeriesAt(f, field, s, crc) && Recovers(s, checked) && k <= |field.blocks|
    ensures AllFind(f, FieldEntries(field, k), SeriesChunks(s, k), checked)
    decreases |field.blocks| - k
  {
    hide ChunkAt, RecoverableChunk, ToBe, Sealed, Chunk;
    if k < |field.blocks| {
      SeriesFinds(f, field, s, k + 1, crc, checked);
      ChunkIs(s.block, k);
      assert EntryAt(f, field.blocks[k], Chunk(s.block, k), crc);
    }
  }

  lemma {:induction false} FileFinds(f: seq<Byte>, fields: seq<Field>, ss: seq<Series>, crc: Crc, checked: bool)
    requires AllWritable(ss) && AllAt(f, fields, ss, crc) && |fields| == |ss|
    requires forall j :: 0 <= j < |ss| ==> Recovers(ss[j], checked)
    ensures AllFind(f, AllEntries(fields), AllChunks(ss), checked)
    decreases |ss|
  {
    hide Finds, SeriesAt, Recovers, FieldEntries, SeriesChunks;
    if ss != [] {
      SeriesFinds(f, fields[0], ss[0], 0, crc, checked);
      FileFinds(f, fields[1..], ss[1..], crc, checked);
    }
  }

  lemma FieldIsIndexable(f: seq<Byte>, field: Field, s: Series, crc: Crc)
    requires Writable(s.block) && SeriesAt(f, field, s, crc) && |f| < Deltas.TWO64 && Chunks(|s.block.ts|) < 0x1_0000
    ensures IndexableField(field)
  {
    hide ToBe, ChunkAt, RecoverableChunk, Chunk;
    forall k | 0 <= k < |field.blocks| ensures field.blocks[k].kind == KindOf(s.block.vals) && Sized(field.blocks[k]) {
      ChunkIs(s.block, k);
      assert EntryAt(f, field.blocks[k], Chunk(s.block, k), crc);
    }
  }

  /** Every chunk that was written is read back, under its field and in order, and no more. */
  method ReadTsm(file: seq<Byte>, checked: bool, ghost before: seq<Byte>, ghost fields: seq<Field>,
                 ghost bloom: seq<Byte>, ghost ss: seq<Series>, ghost crc: Crc)
    returns (chunks: seq<Keyed>)
    requires AllWritable(ss) && |fields| == |ss| && AllAt(file, fields, ss, crc) && |bloom| == BLOOM_FILTER_SIZE
    requires forall j :: 0 <= j < |ss| ==> fields[j].blocks != []
    requires file == before + IndexBytes(fields) + bloom + ToBe(|before|, 8) && |file| < Deltas.TWO64
    requires forall j :: 0 <= j < |ss| ==> Recovers(ss[j], checked) && Chunks(|ss[j].block.ts|) < 0x1_0000
    ensures chunks == AllChunks(ss)
  {
    hide IndexBytes, ToBe, AllEntries, AllChunks, SeriesAt, Recovers, Chunks;
    forall j | 0 <= j < |fields| ensures IndexableField(fields[j]) { FieldIsIndexable(file, fields[j], ss[j], crc); }
    FileFinds(file, fields, ss, crc, checked);
    var entries := ReadIndex(file, before, fields, bloom);
    chunks := [];
    for i := 0 to |entries|
      invariant chunks == AllChunks(ss)[..i]
    {
      assert Finds(file, entries[i], AllChunks(ss)[i], checked);
      var c := ReadBlock(file, entries[i].block, checked);
      assert AllChunks(ss)[..i + 1] == AllChunks(ss)[..i] + [AllChunks(ss)[i]];
      chunks := chunks + [Keyed(entries[i].key, c.value)];
    }
  }

  // ------------------------------------------------------------------------ the values of a series

  /** The values of two parts of one type together */
  function Glue(v: Vals, w: Vals): (r: Vals)
    requires KindOf(v) == KindOf(w)
    ensures KindOf(r) == KindOf(v)
  {
    match v
    case F64(f) => F64(f + w.f)
    case I64(i) => I64(i + w.i)
    case U64(u) => U64(u + w.u)
    case Bool(b) => Bool(b + w.b)
  }

  /** All chunks under a key put together, if they are of the type of `none`, which are no values */
  ghost function Gathered(ks: seq<Keyed>, key: seq<Byte>, none: Vals): (r: Block)
    ensures KindOf(r.vals) == KindOf(none)
  {
    if ks == [] then Block([], none)
    else
      var rest, c := Gathered(ks[1..], key, none), ks[0].chunk;
      if ks[0].key == key && KindOf(c.vals) == KindOf(none) then Block(c.ts + rest.ts, Glue(c.vals, rest.vals)) else rest
  }

  lemma GatheredMore(k: Keyed, ks: seq<Keyed>, key: seq<Byte>, none: Vals)
    ensures Gathered([k] + ks, key, none) ==
      var rest, c := Gathered(ks, key, none), k.chunk;
      if k.key == key && KindOf(c.vals) == KindOf(none) then Block(c.ts + rest.ts, Glue(c.vals, rest.vals)) else rest
  {
    assert ([k] + ks)[1..] == ks;
  }

  /** The chunks of a series, from the `k`-th on, before those of others */
  lemma {:induction false} SeriesGathers(s: Series, k: nat, rest: seq<Keyed>)
    requires Writable(s.block) && k <= Chunks(|s.block.ts|)
    ensures var b, key, none := s.block, ToBe(s.id, 8), Part(s.block.vals, 0, 0);
      var g := Gathered(rest, key, none);
      && Start(|b.ts|, k) <= |b.ts|
      && Gathered(SeriesChunks(s, k) + rest, key, none) ==
         Block(b.ts[Start(|b.ts|, k)..] + g.ts, Glue(Part(b.vals, Start(|b.ts|, k), |b.ts|), g.vals))
    decreases Chunks(|s.block.ts|) - k
  {
    hide ToBe, Gathered, Chunk, Chunks, Start;
    var b, key, none := s.block, ToBe(s.id, 8), Part(s.block.vals, 0, 0);
    StartFits(|b.ts|, k);
    var from := Start(|b.ts|, k);
    if k == Chunks(|b.ts|) {
      assert SeriesChunks(s, k) + rest == rest;
    } else {
      SeriesGathers(s, k + 1, rest);
      ChunkIs(b, k);
      ChunksTile(|b.ts|, k);
      assert SeriesChunks(s, k) + rest == [Keyed(key, Chunk(b, k))] + (SeriesChunks(s, k + 1) + rest);
      GatheredMore(Keyed(key, Chunk(b, k)), SeriesChunks(s, k + 1) + rest, key, none);
      GlueParts(b.vals, from, End(|b.ts|, k), Gathered(rest, key, none).vals);
      assert b.ts[from..] == b.ts[from..End(|b.ts|, k)] + b.ts[End(|b.ts|, k)..];
    }
  }

  lemma StartFits(len: nat, k: nat)
    requires len % MAX_BLOCK_VALUES != 0 && k <= Chunks(len)
    ensures Start(len, k) <= len && (k == Chunks(len) ==> Start(len, k) == len)
  {
    if k > 0 { ChunksTile(len, k - 1); }
  }

  lemma GlueParts(v: Vals, a: nat, b: nat, w: Vals)
    requires a <= b <= Len(v) && KindOf(w) == KindOf(v)
    ensures Glue(Part(v, a, b), Glue(Part(v, b, Len(v)), w)) == Glue(Part(v, a, Len(v)), w)
    ensures Glue(Part(v, 0, Len(v)), Part(v, 0, 0)) == v
  {
    match v
    case F64(f) => assert f[a..b] + (f[b..|f|] + w.f) == f[a..|f|] + w.f && f[0..|f|] + f[0..0] == f;
    case I64(i) => assert i[a..b] + (i[b..|i|] + w.i) == i[a..|i|] + w.i && i[0..|i|] + i[0..0] == i;
    case U64(u) => assert u[a..b] + (u[b..|u|] + w.u) == u[a..|u|] + w.u && u[0..|u|] + u[0..0] == u;
    case Bool(x) => assert x[a..b] + (x[b..|x|] + w.b) == x[a..|x|] + w.b && x[0..|x|] + x[0..0] == x;
  }

  /** Chunks of other series are left out. */
  lemma {:induction false} OthersPassed(s: Series, k: nat, rest: seq<Keyed>, key: seq<Byte>, none: Vals)
    requires Writable(s.block) && k <= Chunks(|s.block.ts|) && key != ToBe(s.id, 8)
    ensures Gathered(SeriesChunks(s, k) + rest, key, none) == Gathered(rest, key, none)
    decreases Chunks(|s.block.ts|) - k
  {
    hide ToBe, Gathered, Chunk, Chunks;
    if k == Chunks(|s.block.ts|) {
      assert SeriesChunks(s, k) + rest == rest;
    } else {
      OthersPassed(s, k + 1, rest, key, none);
      var first := Keyed(ToBe(s.id, 8), Chunk(s.block, k));
      assert SeriesChunks(s, k) + rest == [first] + (SeriesChunks(s, k + 1) + rest);
      GatheredMore(first, SeriesChunks(s, k + 1) + rest, key, none);
    }
  }

  /** No field twice, as in a map */
  ghost predicate Distinct(ss: seq<Series>) {
    forall i, j :: 0 <= i < j < |ss| ==> ss[i].id != ss[j].id
  }

  lemma KeysDiffer(a: Deltas.U64, b: Deltas.U64)
    requires a != b
    ensures ToBe(a, 8) != ToBe(b, 8)
  {
    Pow256Is();
    BeRoundTrip(a, 8);
    BeRoundTrip(b, 8);
  }

  lemma {:induction false} NoneOfThem(ss: seq<Series>, id: Deltas.U64, none: Vals)
    requires AllWritable(ss) && forall j :: 0 <= j < |ss| ==> ss[j].id != id
    ensures Gathered(AllChunks(ss), ToBe(id, 8), none) == Block([], none)
  {
    hide ToBe, SeriesChunks;
    if ss != [] {
      KeysDiffer(id, ss[0].id);
      OthersPassed(ss[0], 0, AllChunks(ss[1..]), ToBe(id, 8), none);
      NoneOfThem(ss[1..], id, none);
    }
  }

  /** The chunks of all series hold every series whole. */
  lemma {:induction false} AllGather(ss: seq<Series>, j: nat)
    requires AllWritable(ss) && Distinct(ss) && j < |ss|
    ensures Gathered(AllChunks(ss), ToBe(ss[j].id, 8), Part(ss[j].block.vals, 0, 0)) == ss[j].block
    decreases |ss|
  {
    hide ToBe, SeriesChunks, Gathered, Glue, Part;
    var s, key, none, rest := ss[j], ToBe(ss[j].id, 8), Part(ss[j].block.vals, 0, 0), AllChunks(ss[1..]);
    if j == 0 {
      SeriesGathers(s, 0, rest);
      NoneOfThem(ss[1..], s.id, none);
      GlueParts(s.block.vals, 0, 0, none);
      assert s.block.ts[0..] + [] == s.block.ts;
    } else {
      KeysDiffer(s.id, ss[0].id);
      OthersPassed(ss[0], 0, rest, key, none);
      assert ss[1..][j - 1] == ss[j];
      AllGather(ss[1..], j - 1);
    }
  }

  /**
   * Writing and reading back: the chunks read hold every series whole, in whatever order the index lists them, if the
   * coders give the values back, the numbers of chunks fit 16 bits and the file 64.
   */
  method WriteThenRead(ss: seq<Series>, order: seq<nat>, bloom: seq<Byte>, crc: Crc, checked: bool)
    returns (w: Outcome<seq<Field>>, chunks: seq<Keyed>)
    requires Even(ss) && Distinct(ss) && Order(order, |ss|) && |bloom| == BLOOM_FILTER_SIZE
    requires forall j :: 0 <= j < |ss| && Writable(ss[j].block) ==>
      Recovers(ss[j], checked) && Chunks(|ss[j].block.ts|) < 0x1_0000
    ensures w.Done? <==> forall j :: 0 <= j < |ss| ==> Good(ss[j])
    ensures w.Done? && |w.file| < Deltas.TWO64 ==> forall j :: 0 <= j < |ss| ==>
      Gathered(chunks, ToBe(ss[j].id, 8), Part(ss[j].block.vals, 0, 0)) == ss[j].block
  {
    hide ToBe, SeriesAt, EncodableBlock, IndexBytes, AllChunks, Recovers, Gathered, Chunks, Part;
    ghost var before: seq<Byte>;
    w, before := WriteTsm(ss, order, bloom, crc);
    chunks := [];
    if w.Done? && |w.file| < Deltas.TWO64 {
      ghost var ordered := InOrder(ss, order);
      chunks := ReadTsm(w.file, checked, before, w.entries, bloom, ordered, crc);
      OrderKeeps(ss, order);
      forall j | 0 <= j < |ss|
        ensures Gathered(chunks, ToBe(ss[j].id, 8), Part(ss[j].block.vals, 0, 0)) == ss[j].block
      {
        assert j in order;
        var k :| 0 <= k < |order| && order[k] == j;
        AllGather(ordered, k);
      }
    }
  }

  lemma OrderKeeps(ss: seq<Series>, order: seq<nat>)
    requires Distinct(ss) && Order(order, |ss|)
    ensures Distinct(InOrder(ss, order))
  {
    var o := InOrder(ss, order);
    forall i, j | 0 <= i < j < |o| ensures o[i].id != o[j].id {
      assert order[i] != order[j];
    }
  }
}
