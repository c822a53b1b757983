/** The index of a TSM file: entries of fields and their blocks, the footer that finds them, and the reader. */
module TsmIndex {
  import opened Bytes
  import opened Deltas
  import opened IntegerCoder

  datatype ValueType = Float | Integer | Boolean | Text | Unsigned | Unknown
  datatype Option<T> = None | Some(value: T)

  const BLOOM_FILTER_SIZE := 64
  const FOOTER_SIZE := BLOOM_FILTER_SIZE + 8

  function Code(t: ValueType): Byte {
    match t case Float => 0 case Integer => 1 case Boolean => 2 case Text => 3 case Unsigned => 4 case Unknown => 5
  }

  function TypeOf(b: Byte): ValueType {
    if b == 0 then Float else if b == 1 then Integer else if b == 2 then Boolean
    else if b == 3 then Text else if b == 4 then Unsigned else Unknown
  }

  /** Where a chunk of a field is in the file, and its first and last time */
  datatype FileBlock = FileBlock(minTs: I64, maxTs: I64, offset: nat, size: nat, valOff: nat, kind: ValueType)

  /** A field with its blocks */
  datatype Field = Field(id: U64, blocks: seq<FileBlock>)

  datatype IndexEntry = IndexEntry(key: seq<Byte>, kind: ValueType, count: nat, block: FileBlock, currBlock: nat)

  ghost predicate Sized(b: FileBlock) {
    b.offset < TWO64 && b.size < TWO64 && b.valOff < TWO64
  }

  const BLOCK_LEN := 40
  const FIELD_LEN := 11

  function BlockBytes(b: FileBlock): (r: seq<Byte>)
    ensures |r| == BLOCK_LEN
  {
    ToBe(AsU64(b.minTs), 8) + ToBe(AsU64(b.maxTs), 8) + ToBe(b.offset, 8) + ToBe(b.size, 8) + ToBe(b.valOff, 8)
  }

  function BlocksBytes(bs: seq<FileBlock>): (r: seq<Byte>)
    ensures |r| == BLOCK_LEN * |bs|
  {
    if bs == [] then [] else BlockBytes(bs[0]) + BlocksBytes(bs[1..])
  }

  /** The number of blocks is cut to sixteen bits. */
  function FieldHead(f: Field): (r: seq<Byte>)
    requires f.blocks != []
    ensures |r| == FIELD_LEN
  {
    ToBe(f.id, 8) + [Code(f.blocks[0].kind)] + ToBe(|f.blocks| % 0x1_0000, 2)
  }

  ghost predicate Indexable(fs: seq<Field>) {
    forall i :: 0 <= i < |fs| ==> IndexableField(fs[i])
  }

  /** One type throughout, positions in 64 bits, and a number of blocks that sixteen bits hold */
  ghost predicate IndexableField(f: Field) {
    && 0 < |f.blocks| < 0x1_0000
    && forall k :: 0 <= k < |f.blocks| ==> f.blocks[k].kind == f.blocks[0].kind && Sized(f.blocks[k])
  }

  function IndexBytes(fs: seq<Field>): seq<Byte>
    requires forall i :: 0 <= i < |fs| ==> fs[i].blocks != []
  {
    if fs == [] then [] else FieldHead(fs[0]) + BlocksBytes(fs[0].blocks) + IndexBytes(fs[1..])
  }

  /** `TsmIndexWriter::write_to`, after what is already in the file */
  method WriteIndex(out: seq<Byte>, fs: seq<Field>) returns (r: seq<Byte>)
    requires forall i :: 0 <= i < |fs| ==> fs[i].blocks != []
    ensures r == out + IndexBytes(fs)
  {
    hide FieldHead, BlockBytes;
    r := out;
    var i := 0;
    assert fs[0..] == fs;
    while i < |fs|
      invariant i <= |fs| && r + IndexBytes(fs[i..]) == out + IndexBytes(fs)
    {
      var buf := FieldHead(fs[i]);
      var blocks := fs[i].blocks;
      var k := 0;
      assert blocks[0..] == blocks;
      while k < |blocks|
        invariant k <= |blocks| && buf + BlocksBytes(blocks[k..]) == FieldHead(fs[i]) + BlocksBytes(blocks)
      {
        assert blocks[k..][1..] == blocks[k + 1..];
        buf := buf + BlockBytes(blocks[k]);
        k := k + 1;
      }
      assert blocks[k..] == [] && buf + [] == buf;
      assert fs[i..][1..] == fs[i + 1..];
      r := r + buf;
      i := i + 1;
    }
    assert fs[i..] == [] && r + [] == r;
  }

  // ------------------------------------------------------------------------ parsing one entry

  function BlockFrom(b: seq<Byte>, kind: ValueType): FileBlock
    requires |b| == BLOCK_LEN
  {
    FromBeWide(b[..8]);
    FromBeWide(b[8..16]);
    FileBlock(AsI64(FromBe(b[..8])), AsI64(FromBe(b[8..16])), FromBe(b[16..24]), FromBe(b[24..32]), FromBe(b[32..40]), kind)
  }

  lemma BlockRoundTrip(b: FileBlock)
    requires Sized(b)
    ensures BlockFrom(BlockBytes(b), b.kind) == b
  {
    hide ToBe, FromBe;
    var r := BlockBytes(b);
    assert r[..8] == ToBe(AsU64(b.minTs), 8) && r[8..16] == ToBe(AsU64(b.maxTs), 8);
    assert r[16..24] == ToBe(b.offset, 8) && r[24..32] == ToBe(b.size, 8);
    assert r[32..40] == r[32..] == ToBe(b.valOff, 8);
    EightRoundTrip(AsU64(b.minTs));
    EightRoundTrip(AsU64(b.maxTs));
    EightRoundTrip(b.offset);
    EightRoundTrip(b.size);
    EightRoundTrip(b.valOff);
  }

  lemma HeadRoundTrip(f: Field)
    requires IndexableField(f)
    ensures var h := FieldHead(f);
      h[..8] == ToBe(f.id, 8) && TypeOf(h[8]) == f.blocks[0].kind && FromBe(h[9..11]) == |f.blocks|
  {
    hide ToBe, FromBe;
    var h := FieldHead(f);
    assert h[..8] == ToBe(f.id, 8) && h[9..11] == ToBe(|f.blocks|, 2);
    Pow256Is();
    BeRoundTrip(|f.blocks|, 2);
  }

  // ------------------------------------------------------------------------ the reader

  /** What the reader gives for a field */
  ghost function FieldEntries(f: Field, k: nat): seq<IndexEntry>
    requires k <= |f.blocks|
    decreases |f.blocks| - k
  {
    if k == |f.blocks| then []
    else [IndexEntry(ToBe(f.id, 8), f.blocks[k].kind, |f.blocks|, f.blocks[k], k + 1)] + FieldEntries(f, k + 1)
  }

  ghost function AllEntries(fs: seq<Field>): seq<IndexEntry> {
    if fs == [] then [] else FieldEntries(fs[0], 0) + AllEntries(fs[1..])
  }

  lemma FirstBlock(bs: seq<FileBlock>, k: nat, tail: seq<Byte>)
    requires k < |bs|
    ensures BlocksBytes(bs[k..]) + tail == BlockBytes(bs[k]) + (BlocksBytes(bs[k + 1..]) + tail)
  {
    hide BlockBytes;
    assert bs[k..][1..] == bs[k + 1..];
  }

  lemma NoEntries(f: Field)
    ensures FieldEntries(f, |f.blocks|) == []
  {
  }

  lemma MoreEntries(f: Field, k: nat, rest: seq<IndexEntry>)
    requires k < |f.blocks|
    ensures FieldEntries(f, k) + rest ==
            [IndexEntry(ToBe(f.id, 8), f.blocks[k].kind, |f.blocks|, f.blocks[k], k + 1)] + (FieldEntries(f, k + 1) + rest)
  {
    hide ToBe;
  }

  lemma FirstField(fs: seq<Field>)
    requires Indexable(fs) && fs != []
    ensures BlocksBytes([]) + IndexBytes(fs) ==
            FieldHead(fs[0]) + (BlockBytes(fs[0].blocks[0]) + (BlocksBytes(fs[0].blocks[1..]) + IndexBytes(fs[1..])))
  {
    hide FieldHead, BlockBytes;
    assert BlocksBytes([]) == [];
  }

  lemma FirstEntries(fs: seq<Field>)
    requires fs != []
    ensures AllEntries(fs) == FieldEntries(fs[0], 0) + AllEntries(fs[1..])
  {
  }

  class IndexReader {
    const file: seq<Byte>
    const end: nat
    var pos: nat
    var curr: Option<IndexEntry>
    /** The field being read, and the fields after it */
    ghost var field: Field
    ghost var fields: seq<Field>

    ghost function Left(): seq<FileBlock>
      requires curr.Some? ==> curr.value.currBlock <= |field.blocks|
      reads this
    {
      if curr.None? then [] else field.blocks[curr.value.currBlock..]
    }

    ghost predicate Valid()
      reads this
    {
      && pos <= end <= |file| && Indexable(fields)
      && (curr.Some? ==>
            && IndexableField(field) && 0 < curr.value.currBlock <= |field.blocks| == curr.value.count
            && curr.value.key == ToBe(field.id, 8) && curr.value.kind == field.blocks[0].kind)
      && file[pos..end] == BlocksBytes(Left()) + IndexBytes(fields)
    }

    /** The entries still to come */
    ghost function ToCome(): seq<IndexEntry>
      requires Valid()
      reads this
    {
      (if curr.None? then [] else FieldEntries(field, curr.value.currBlock)) + AllEntries(fields)
    }

    /** `try_new`: the last eight bytes say where the index begins, and the length where it ends. */
    constructor (file: seq<Byte>, ghost before: seq<Byte>, ghost fs: seq<Field>, ghost bloom: seq<Byte>)
      requires Indexable(fs) && |bloom| == BLOOM_FILTER_SIZE && |before| < TWO64
      requires file == before + IndexBytes(fs) + bloom + ToBe(|before|, 8)
      ensures Valid() && ToCome() == AllEntries(fs)
    {
      hide ToBe, FromBe;
      assert file[|file| - 8..] == ToBe(|before|, 8);
      EightRoundTrip(|before|);
      this.file := file;
      pos := FromBe(file[|file| - 8..]);
      end := |file| - FOOTER_SIZE;
      curr := None;
      field := Field(0, []);
      fields := fs;
      new;
      assert file[pos..end] == IndexBytes(fs);
      assert BlocksBytes(Left()) == [];
    }

    /** `next_block_entry` */
    method NextBlockEntry(kind: ValueType) returns (b: FileBlock)
      requires pos + BLOCK_LEN <= |file|
      modifies this`pos
      ensures pos == old(pos) + BLOCK_LEN && b == BlockFrom(file[old(pos)..pos], kind)
    {
      hide FromBe;
      var w0 := ReadWord();
      var w1 := ReadWord();
      var w2 := ReadWord();
      var w3 := ReadWord();
      var w4 := ReadWord();
      b := FileBlock(AsI64(w0), AsI64(w1), w2, w3, w4, kind);
      ghost var p := old(pos);
      SubSlice(file, p, BLOCK_LEN, 0, 8);
      SubSlice(file, p, BLOCK_LEN, 8, 16);
      SubSlice(file, p, BLOCK_LEN, 16, 24);
      SubSlice(file, p, BLOCK_LEN, 24, 32);
      SubSlice(file, p, BLOCK_LEN, 32, 40);
    }

    method ReadWord() returns (w: U64)
      requires pos + 8 <= |file|
      modifies this`pos
      ensures pos == old(pos) + 8 && w == FromBe(file[old(pos)..pos])
    {
      FromBeWide(file[pos..pos + 8]);
      w := FromBe(file[pos..pos + 8]);
      pos := pos + 8;
    }

    lemma Drop(n: nat, a: seq<Byte>, b: seq<Byte>)
      requires pos <= end <= |file| && file[pos..end] == a + b && n == |a|
      ensures pos + n <= end && file[pos..pos + n] == a && file[pos + n..end] == b
    {
      assert (a + b)[..n] == a && (a + b)[n..] == b;
      SubSlice(file, pos, end - pos, 0, n);
      SubSlice(file, pos, end - pos, n, end - pos);
    }

    /** The next block of the field being read */
    method NextInField() returns (e: IndexEntry)
      requires Valid() && curr.Some? && curr.value.currBlock < curr.value.count
      modifies this
      ensures Valid() && curr == Some(e) && old(ToCome()) == [e] + ToCome()
    {
      hide BlockBytes, BlockFrom, IndexBytes, ToBe, AllEntries, FieldEntries, BlocksBytes;
      var c := curr.value;
      ghost var k := c.currBlock;
      ghost var b := field.blocks[k];
      FirstBlock(field.blocks, k, IndexBytes(fields));
      Drop(BLOCK_LEN, BlockBytes(b), BlocksBytes(field.blocks[k + 1..]) + IndexBytes(fields));
      BlockRoundTrip(b);
      var block := NextBlockEntry(c.kind);
      e := c.(block := block, currBlock := c.currBlock + 1);
      curr := Some(e);
      MoreEntries(field, k, AllEntries(fields));
    }

    /** The id, the type and the number of blocks of a field */
    method ReadHead(ghost f: Field) returns (key: seq<Byte>, kind: ValueType, count: nat)
      requires pos + FIELD_LEN <= |file| && IndexableField(f) && file[pos..pos + FIELD_LEN] == FieldHead(f)
      modifies this`pos
      ensures pos == old(pos) + FIELD_LEN
      ensures key == ToBe(f.id, 8) && kind == f.blocks[0].kind && count == |f.blocks|
    {
      hide FieldHead, ToBe, FromBe, TypeOf;
      HeadRoundTrip(f);
      SubSlice(file, pos, FIELD_LEN, 0, 8);
      SubSlice(file, pos, FIELD_LEN, 9, 11);
      key := file[pos..pos + 8];
      pos := pos + 8;
      kind := TypeOf(file[pos]);
      count := FromBe(file[pos + 1..pos + 3]);
      pos := pos + 3;
    }

    /** `next_index_entry`: the head of a field, and its first block */
    method NextIndexEntry() returns (e: IndexEntry)
      requires Valid() && Left() == [] && fields != []
      modifies this
      ensures Valid() && curr == Some(e) && old(ToCome()) == [e] + ToCome()
    {
      hide BlockBytes, BlockFrom, FieldHead, ToBe, BlocksBytes, IndexBytes, AllEntries, FieldEntries;
      ghost var f, rest := fields[0], fields[1..];
      ghost var b := f.blocks[0];
      ghost var tail := BlocksBytes(f.blocks[1..]) + IndexBytes(rest);
      FirstField(fields);
      Drop(FIELD_LEN, FieldHead(f), BlockBytes(b) + tail);
      var key, kind, count := ReadHead(f);
      Drop(BLOCK_LEN, BlockBytes(b), tail);
      BlockRoundTrip(b);
      var block := NextBlockEntry(kind);
      e := IndexEntry(key, kind, count, block, 1);
      FirstEntries(fields);
      MoreEntries(f, 0, AllEntries(rest));
      if curr.Some? { NoEntries(field); }
      assert [] + AllEntries(fields) == AllEntries(fields);
      curr := Some(e);
      field, fields := f, rest;
    }

    lemma AtEnd()
      requires Valid()
      ensures pos == end <==> Left() == [] && fields == []
      ensures pos == end <==> ToCome() == []
    {
      hide BlockBytes, FieldHead, ToBe;
      assert |file[pos..end]| == end - pos;
      if fields != [] { assert |IndexBytes(fields)| >= FIELD_LEN; }
      if fields != [] { assert FieldEntries(fields[0], 0) != []; }
    }

    /** The iterator: the entries one by one, and nothing at the footer */
    method Next() returns (r: Option<IndexEntry>)
      requires Valid()
      modifies this
      ensures Valid()
      ensures r.None? <==> old(ToCome()) == []
      ensures r.None? ==> ToCome() == []
      ensures r.Some? ==> old(ToCome()) == [r.value] + ToCome()
    {
      hide BlockBytes, BlocksBytes, IndexBytes, AllEntries, FieldEntries, ToBe;
      AtEnd();
      if pos == end {
        return None;
      }
      var e: IndexEntry;
      if curr.Some? && curr.value.currBlock < curr.value.count {
        e := NextInField();
      } else {
        e := NextIndexEntry();
      }
      return Some(e);
    }
  }

  /** The whole index: exactly the entries that were written, field by field and block by block */
  method ReadIndex(file: seq<Byte>, ghost before: seq<Byte>, ghost fs: seq<Field>, ghost bloom: seq<Byte>)
    returns (entries: seq<IndexEntry>)
    requires Indexable(fs) && |bloom| == BLOOM_FILTER_SIZE && |before| < TWO64
    requires file == before + IndexBytes(fs) + bloom + ToBe(|before|, 8)
    ensures entries == AllEntries(fs)
  {
    hide IndexReader.Valid, AllEntries, IndexReader.ToCome;
    var reader := new IndexReader(file, before, fs, bloom);
    entries := [];
    var more := true;
    while more
      invariant reader.Valid() && fresh(reader) && AllEntries(fs) == entries + reader.ToCome()
      invariant !more ==> reader.ToCome() == []
      decreases |reader.ToCome()|, more
    {
      var e := reader.Next();
      if e.None? {
        more := false;
      } else {
        entries := entries + [e.value];
      }
    }
  }
}
