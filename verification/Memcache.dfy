/** The in-memory cells of a time-series family. */
module Memcache {
  import opened Bytes

  const MIN_TS := -0x8000_0000_0000_0000
  const MAX_TS := 0x7fff_ffff_ffff_ffff

  type Timestamp = x: int | MIN_TS <= x <= MAX_TS
  type FieldId = x: int | 0 <= x < 0x1_0000_0000_0000_0000

  datatype ValueType = Unknown | Float | Integer | Unsigned | Boolean | Text
  datatype Cell = Cell(kind: ValueType, ts: Timestamp, val: seq<Byte>)

  datatype MemEntry = MemEntry(tsMin: Timestamp, tsMax: Timestamp, kind: ValueType, cells: seq<Cell>)
  datatype TimeRange = TimeRange(minTs: Timestamp, maxTs: Timestamp)

  predicate InRange(c: Cell, r: TimeRange) {
    r.minTs <= c.ts <= r.maxTs
  }

  /** `overlap`, which asks for both ends to be outside at once */
  predicate Overlap(e: MemEntry, r: TimeRange) {
    !(e.tsMin > r.maxTs && e.tsMax < r.minTs)
  }

  // ------------------------------------------------------------------------ sorting and retaining

  /** The cell goes after those of its time and before all later ones. */
  function Place(c: Cell, sorted: seq<Cell>): (r: seq<Cell>)
    ensures multiset(r) == multiset(sorted) + multiset{c}
  {
    if sorted == [] || sorted[|sorted| - 1].ts <= c.ts then sorted + [c]
    else
      var last := sorted[|sorted| - 1];
      assert sorted == sorted[..|sorted| - 1] + [last];
      Place(c, sorted[..|sorted| - 1]) + [last]
  }

  /** `sort_by` the time */
  function SortByTime(cells: seq<Cell>): (r: seq<Cell>)
    ensures multiset(r) == multiset(cells)
  {
    if cells == [] then []
    else
      assert cells == cells[..|cells| - 1] + [cells[|cells| - 1]];
      Place(cells[|cells| - 1], SortByTime(cells[..|cells| - 1]))
  }

  ghost predicate InOrder(cells: seq<Cell>) {
    forall i, k :: 0 <= i < k < |cells| ==> cells[i].ts <= cells[k].ts
  }

  ghost function OfTime(cells: seq<Cell>, t: Timestamp): seq<Cell> {
    if cells == [] then []
    else OfTime(cells[..|cells| - 1], t) + if cells[|cells| - 1].ts == t then [cells[|cells| - 1]] else []
  }

  lemma OfTimeMore(cells: seq<Cell>, c: Cell, t: Timestamp)
    ensures OfTime(cells + [c], t) == OfTime(cells, t) + if c.ts == t then [c] else []
  {
    assert (cells + [c])[..|cells|] == cells;
  }

  lemma {:induction false} PlaceInOrder(c: Cell, sorted: seq<Cell>)
    requires InOrder(sorted)
    ensures InOrder(Place(c, sorted))
  {
    if sorted != [] && sorted[|sorted| - 1].ts > c.ts {
      var init, last := sorted[..|sorted| - 1], sorted[|sorted| - 1];
      PlaceInOrder(c, init);
      PlaceBelow(c, init, last.ts);
      assert Place(c, sorted) == Place(c, init) + [last];
    }
  }

  lemma {:induction false} PlaceBelow(c: Cell, cells: seq<Cell>, t: Timestamp)
    requires c.ts <= t && forall i :: 0 <= i < |cells| ==> cells[i].ts <= t
    ensures forall i :: 0 <= i < |Place(c, cells)| ==> Place(c, cells)[i].ts <= t
  {
    if cells != [] && cells[|cells| - 1].ts > c.ts {
      var init, last := cells[..|cells| - 1], cells[|cells| - 1];
      PlaceBelow(c, init, t);
      var p, q := Place(c, cells), Place(c, init);
      forall i | 0 <= i < |p| ensures p[i].ts <= t {
        if i < |q| { assert p[i] == q[i]; } else { assert p[i] == cells[|cells| - 1]; }
      }
    }
  }

  lemma {:induction false} PlaceOfTime(c: Cell, sorted: seq<Cell>, t: Timestamp)
    ensures OfTime(Place(c, sorted), t) == OfTime(sorted, t) + if c.ts == t then [c] else []
  {
    hide OfTime;
    if sorted == [] || sorted[|sorted| - 1].ts <= c.ts {
      OfTimeMore(sorted, c, t);
    } else {
      var init, last := sorted[..|sorted| - 1], sorted[|sorted| - 1];
      assert sorted == init + [last];
      PlaceOfTime(c, init, t);
      OfTimeMore(Place(c, init), last, t);
      OfTimeMore(init, last, t);
    }
  }

  /** Sorting orders by time and keeps the order of cells of the same time. */
  lemma {:induction false} SortIsStable(cells: seq<Cell>, t: Timestamp)
    ensures InOrder(SortByTime(cells)) && OfTime(SortByTime(cells), t) == OfTime(cells, t)
  {
    if cells != [] {
      SortIsStable(cells[..|cells| - 1], t);
      PlaceInOrder(cells[|cells| - 1], SortByTime(cells[..|cells| - 1]));
      PlaceOfTime(cells[|cells| - 1], SortByTime(cells[..|cells| - 1]), t);
    }
  }

  /** `delete_data_cell` */
  function Retain(cells: seq<Cell>, r: TimeRange): seq<Cell> {
    if cells == [] then []
    else
      var c := cells[|cells| - 1];
      Retain(cells[..|cells| - 1], r) + if c.ts < r.minTs || c.ts > r.maxTs then [c] else []
  }

  lemma {:induction false} RetainCounts(cells: seq<Cell>, r: TimeRange, c: Cell)
    ensures multiset(Retain(cells, r))[c] == if InRange(c, r) then 0 else multiset(cells)[c]
  {
    if cells != [] {
      RetainCounts(cells[..|cells| - 1], r, c);
      assert cells == cells[..|cells| - 1] + [cells[|cells| - 1]];
    }
  }

  /** What stays keeps its order, and no cell of a time in the range stays. */
  lemma {:induction false} RetainOfTime(cells: seq<Cell>, r: TimeRange, t: Timestamp)
    ensures OfTime(Retain(cells, r), t) == if r.minTs <= t <= r.maxTs then [] else OfTime(cells, t)
  {
    if cells != [] {
      var init, c := cells[..|cells| - 1], cells[|cells| - 1];
      RetainOfTime(init, r, t);
      OfTimeMore(Retain(init, r), c, t);
      assert Retain(init, r) + [] == Retain(init, r);
    }
  }

  /** A deletion of cells is one of each part. */
  lemma {:induction false} RetainSplits(a: seq<Cell>, b: seq<Cell>, r: TimeRange)
    ensures Retain(a + b, r) == Retain(a, r) + Retain(b, r)
    decreases |b|
  {
    if b == [] {
      assert a + b == a;
    } else {
      assert (a + b)[..|a + b| - 1] == a + b[..|b| - 1];
      RetainSplits(a, b[..|b| - 1], r);
    }
  }

  lemma {:induction false} RetainAll(cells: seq<Cell>, r: TimeRange)
    requires forall i :: 0 <= i < |cells| ==> !InRange(cells[i], r)
    ensures Retain(cells, r) == cells
  {
    if cells != [] {
      RetainAll(cells[..|cells| - 1], r);
      assert cells == cells[..|cells| - 1] + [cells[|cells| - 1]];
    }
  }

  // ------------------------------------------------------------------------ one entry

  ghost predicate Within(cells: seq<Cell>, lo: int, hi: int) {
    forall i :: 0 <= i < |cells| ==> lo <= cells[i].ts <= hi
  }

  /** The times of an entry enclose those of its cells. */
  ghost predicate EntryOk(e: MemEntry) {
    Within(e.cells, e.tsMin, e.tsMax)
  }

  lemma WithinByCounts(a: seq<Cell>, b: seq<Cell>, lo: int, hi: int)
    requires Within(a, lo, hi) && forall c :: c in multiset(b) ==> c in multiset(a)
    ensures Within(b, lo, hi)
  {
    forall i | 0 <= i < |b| ensures lo <= b[i].ts <= hi {
      assert b[i] in multiset(b);
      assert b[i] in a;
    }
  }

  /** `MemEntry` with one more cell */
  function Pushed(e: MemEntry, c: Cell): MemEntry {
    var hi := if e.tsMax < c.ts then c.ts else e.tsMax;
    var lo := if e.tsMin > c.ts then c.ts else e.tsMin;
    MemEntry(lo, hi, c.kind, e.cells + [c])
  }

  lemma PushedIs(e: MemEntry, c: Cell, d: Cell)
    requires EntryOk(e)
    ensures EntryOk(Pushed(e, c))
    ensures Pushed(e, c).cells == e.cells + [c] && Pushed(e, c).kind == c.kind
    ensures Pushed(e, c).tsMin == if e.tsMin < c.ts then e.tsMin else c.ts
    ensures Pushed(e, c).tsMax == if e.tsMax > c.ts then e.tsMax else c.ts
    ensures multiset(Pushed(e, c).cells)[d] == multiset(e.cells)[d] + if d == c then 1 else 0
    ensures forall lo: int, hi: int :: Within(e.cells, lo, hi) && lo <= c.ts <= hi ==> Within(Pushed(e, c).cells, lo, hi)
  {
  }

  function SortedEntry(e: MemEntry): MemEntry {
    e.(cells := SortByTime(e.cells))
  }

  lemma SortedEntryIs(e: MemEntry)
    requires EntryOk(e)
    ensures EntryOk(SortedEntry(e)) && multiset(SortedEntry(e).cells) == multiset(e.cells)
    ensures forall lo: int, hi: int :: Within(e.cells, lo, hi) ==> Within(SortedEntry(e).cells, lo, hi)
  {
    forall lo: int, hi: int | Within(e.cells, lo, hi) ensures Within(SortedEntry(e).cells, lo, hi) {
      WithinByCounts(e.cells, SortByTime(e.cells), lo, hi);
    }
  }

  /** An entry after a deletion */
  function Pruned(e: MemEntry, r: TimeRange): MemEntry {
    if Overlap(e, r) then e.(cells := Retain(e.cells, r)) else e
  }

  /** Exactly the cells in the range go, odd as the test for an overlap is. */
  lemma PrunedCounts(e: MemEntry, r: TimeRange, c: Cell)
    requires EntryOk(e)
    ensures multiset(Pruned(e, r).cells)[c] == if InRange(c, r) then 0 else multiset(e.cells)[c]
  {
    RetainCounts(e.cells, r, c);
    if c in e.cells { assert e.tsMin <= c.ts <= e.tsMax; }
  }

  lemma PrunedIs(e: MemEntry, r: TimeRange)
    requires EntryOk(e)
    ensures EntryOk(Pruned(e, r)) && Pruned(e, r).cells == Retain(e.cells, r)
    ensures forall lo: int, hi: int :: Within(e.cells, lo, hi) ==> Within(Pruned(e, r).cells, lo, hi)
  {
    hide Pruned;
    var p := Pruned(e, r);
    forall c | c in multiset(p.cells) ensures c in multiset(e.cells) { PrunedCounts(e, r, c); }
    PrunedCells(e, r);
    forall lo: int, hi: int | Within(e.cells, lo, hi) ensures Within(p.cells, lo, hi) {
      WithinByCounts(e.cells, p.cells, lo, hi);
    }
  }

  lemma PrunedCells(e: MemEntry, r: TimeRange)
    requires EntryOk(e)
    ensures Pruned(e, r).tsMin == e.tsMin && Pruned(e, r).tsMax == e.tsMax && Pruned(e, r).cells == Retain(e.cells, r)
  {
    if !Overlap(e, r) { RetainAll(e.cells, r); }
  }

  // ------------------------------------------------------------------------ the cache

  ghost function CellsIn(data: map<FieldId, MemEntry>, f: FieldId): seq<Cell> {
    if f in data then data[f].cells else []
  }

  class MemCache {
    const maxBufSize: nat
    const isDelta: bool
    var data: map<FieldId, MemEntry>
    var cacheSize: nat
    var seqNo: nat
    var immutable: bool

    constructor (maxBufSize: nat, seqNo: nat, isDelta: bool)
      ensures this.maxBufSize == maxBufSize && this.isDelta == isDelta && data == map[] && cacheSize == 0 && Valid()
    {
      this.maxBufSize, this.isDelta, this.seqNo := maxBufSize, isDelta, seqNo;
      data, cacheSize, immutable := map[], 0, false;
    }

    ghost function CellsOf(f: FieldId): seq<Cell>
      reads this`data
    {
      CellsIn(data, f)
    }

    /** How often the field has the cell here */
    ghost function Count(f: FieldId, c: Cell): nat
      reads this`data
    {
      multiset(CellsOf(f))[c]
    }

    ghost predicate Valid()
      reads this`data
    {
      forall f :: f in data ==> EntryOk(data[f])
    }

    /** Every cell is of one of these times or between them. */
    ghost predicate Between(lo: int, hi: int)
      reads this`data
    {
      forall f :: f in data ==> Within(data[f].cells, lo, hi)
    }

    predicate IsFull()
      reads this`cacheSize
    {
      cacheSize >= maxBufSize
    }

    /** `insert_raw` and `insert` */
    method Insert(seqNo: nat, f: FieldId, c: Cell, size: nat)
      requires Valid()
      modifies this
      ensures Valid() && this.seqNo == seqNo && cacheSize == old(cacheSize) + size && immutable == old(immutable)
      ensures data.Keys == old(data.Keys) + {f} && data[f].kind == c.kind
      ensures data[f].tsMin == if f in old(data) && old(data[f].tsMin) < c.ts then old(data[f].tsMin) else c.ts
      ensures data[f].tsMax == if f in old(data) && old(data[f].tsMax) > c.ts then old(data[f].tsMax) else c.ts
      ensures CellsOf(f) == old(CellsOf(f)) + [c] && forall g :: g in data && g != f ==> data[g] == old(data[g])
      ensures forall g, d :: Count(g, d) == old(Count(g, d)) + if g == f && d == c then 1 else 0
      ensures forall lo: int, hi: int :: old(Between(lo, hi)) && lo <= c.ts <= hi ==> Between(lo, hi)
    {
      hide Pushed, EntryOk, Within;
      this.seqNo := seqNo;
      var item := if f in data then data[f] else MemEntry(MAX_TS, MIN_TS, Unknown, []);
      EmptyEntry();
      cacheSize := cacheSize + size;
      forall d ensures multiset(Pushed(item, c).cells)[d] == multiset(item.cells)[d] + if d == c then 1 else 0 {
        PushedIs(item, c, d);
      }
      PushedIs(item, c, c);
      data := data[f := Pushed(item, c)];
    }

    lemma EmptyEntry()
      ensures EntryOk(MemEntry(MAX_TS, MIN_TS, Unknown, []))
      ensures forall lo: int, hi: int :: Within([], lo, hi)
    {
    }

    /** `switch_to_immutable`: the cells of every field are sorted. */
    method SwitchToImmutable()
      requires Valid()
      modifies this
      ensures Valid() && immutable && cacheSize == old(cacheSize)
      ensures data.Keys == old(data.Keys)
      ensures forall g, d :: Count(g, d) == old(Count(g, d))
      ensures forall g :: InOrder(CellsOf(g))
      ensures forall g, t :: OfTime(CellsIn(data, g), t) == OfTime(CellsIn(old(data), g), t)
      ensures forall lo: int, hi: int :: old(Between(lo, hi)) ==> Between(lo, hi)
    {
      hide SortedEntry, EntryOk, Within, InOrder, OfTime;
      data := map f | f in data :: SortedEntry(data[f]);
      immutable := true;
      forall f | f in data
        ensures EntryOk(data[f]) && multiset(data[f].cells) == multiset(old(data)[f].cells)
        ensures forall lo: int, hi: int :: Within(old(data)[f].cells, lo, hi) ==> Within(data[f].cells, lo, hi)
      {
        SortedEntryIs(old(data)[f]);
      }
      forall g ensures InOrder(CellsOf(g)) && CellsOf(g) == SortByTime(old(CellsOf(g))) {
        SortedOf(old(CellsOf(g)), 0);
        if g in data { SortedCells(old(data)[g]); }
      }
      forall g, t ensures OfTime(CellsIn(data, g), t) == OfTime(CellsIn(old(data), g), t) {
        assert CellsOf(g) == SortByTime(old(CellsOf(g)));
        SortedOf(old(CellsOf(g)), t);
      }
    }

    lemma SortedCells(e: MemEntry)
      ensures SortedEntry(e).cells == SortByTime(e.cells)
    {
    }

    lemma SortedOf(cells: seq<Cell>, t: Timestamp)
      ensures InOrder(SortByTime(cells)) && OfTime(SortByTime(cells), t) == OfTime(cells, t)
      ensures SortByTime([]) == []
    {
      SortIsStable(cells, t);
    }

    /** The part of `delete_cache` for one cache */
    method Delete(r: TimeRange)
      requires Valid()
      modifies this`data
      ensures Valid() && data.Keys == old(data.Keys)
      ensures forall g :: CellsIn(data, g) == Retain(CellsIn(old(data), g), r)
      ensures forall g, d :: Count(g, d) == if InRange(d, r) then 0 else old(Count(g, d))
      ensures forall lo: int, hi: int :: old(Between(lo, hi)) ==> Between(lo, hi)
    {
      hide Pruned, EntryOk, Within;
      data := map f | f in data :: Pruned(data[f], r);
      forall f, c | f in data
        ensures multiset(data[f].cells)[c] == if InRange(c, r) then 0 else multiset(old(data)[f].cells)[c]
      {
        PrunedCounts(old(data)[f], r, c);
      }
      forall f | f in data
        ensures EntryOk(data[f]) && data[f].cells == Retain(old(data)[f].cells, r)
        ensures forall lo: int, hi: int :: Within(old(data)[f].cells, lo, hi) ==> Within(data[f].cells, lo, hi)
      {
        PrunedIs(old(data)[f], r);
      }
    }
  }
}
