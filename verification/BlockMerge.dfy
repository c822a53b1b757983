/** Blocks of time-sorted cells merged into one, the later block winning. */
module BlockMerge {
  datatype Kind = U64 | I64 | Str | F64 | Bool
  datatype Option<T> = None | Some(value: T)
  datatype Cell<V> = Cell(kind: Kind, ts: int, val: V)

  /** `index` is how far the block has been read. */
  datatype Block<V> = Block(kind: Kind, index: nat, ts: seq<int>, val: seq<V>)

  ghost predicate Readable<V>(b: Block<V>) {
    b.index <= |b.ts| == |b.val|
  }

  function CellsFrom<V>(b: Block<V>, i: nat): seq<Cell<V>>
    requires i <= |b.ts| == |b.val|
  {
    seq(|b.ts| - i, k requires 0 <= k < |b.ts| - i => Cell(b.kind, b.ts[i + k], b.val[i + k]))
  }

  // ------------------------------------------------------------------------ the merge, round by round

  ghost predicate HeadIs<V>(r: seq<Cell<V>>, t: int) {
    r != [] && r[0].ts == t
  }

  /** The least time at the head of one of the first `n` */
  ghost function MinHead<V>(rs: seq<seq<Cell<V>>>, n: nat): Option<int>
    requires n <= |rs|
  {
    if n == 0 then None
    else
      var m := MinHead(rs, n - 1);
      if rs[n - 1] == [] || (m.Some? && m.value <= rs[n - 1][0].ts) then m else Some(rs[n - 1][0].ts)
  }

  /** The last of the first `n` with this time at its head gives the cell. */
  ghost function Picked<V>(rs: seq<seq<Cell<V>>>, t: int, n: nat): Option<Cell<V>>
    requires n <= |rs|
  {
    if n == 0 then None
    else if HeadIs(rs[n - 1], t) then Some(rs[n - 1][0])
    else Picked(rs, t, n - 1)
  }

  ghost function Drop<V>(r: seq<Cell<V>>, t: int): seq<Cell<V>> {
    if HeadIs(r, t) then r[1..] else r
  }

  /** ... and all with it move on. */
  ghost function Dropped<V>(rs: seq<seq<Cell<V>>>, t: int): (r: seq<seq<Cell<V>>>)
    ensures |r| == |rs|
  {
    seq(|rs|, b requires 0 <= b < |rs| => Drop(rs[b], t))
  }

  ghost function Total<V>(rs: seq<seq<Cell<V>>>, n: nat): nat
    requires n <= |rs|
  {
    if n == 0 then 0 else Total(rs, n - 1) + |rs[n - 1]|
  }

  lemma {:induction false} DropShrinks<V>(rs: seq<seq<Cell<V>>>, t: int, n: nat)
    requires n <= |rs|
    ensures Total(Dropped(rs, t), n) <= Total(rs, n)
    ensures (exists b :: 0 <= b < n && HeadIs(rs[b], t)) ==> Total(Dropped(rs, t), n) < Total(rs, n)
  {
    if n > 0 { DropShrinks(rs, t, n - 1); }
  }

  lemma {:induction false} MinHeadIs<V>(rs: seq<seq<Cell<V>>>, n: nat)
    requires n <= |rs|
    ensures MinHead(rs, n).None? <==> forall b :: 0 <= b < n ==> rs[b] == []
    ensures MinHead(rs, n).Some? ==> exists b :: 0 <= b < n && HeadIs(rs[b], MinHead(rs, n).value)
    ensures MinHead(rs, n).Some? ==> forall b :: 0 <= b < n && rs[b] != [] ==> MinHead(rs, n).value <= rs[b][0].ts
  {
    if n > 0 {
      MinHeadIs(rs, n - 1);
      assert rs[n - 1] != [] ==> HeadIs(rs[n - 1], rs[n - 1][0].ts);
    }
  }

  lemma {:induction false} PickedIs<V>(rs: seq<seq<Cell<V>>>, t: int, n: nat)
    requires n <= |rs|
    ensures Picked(rs, t, n).Some? <==> exists b :: 0 <= b < n && HeadIs(rs[b], t)
    ensures Picked(rs, t, n).Some? ==> Picked(rs, t, n).value.ts == t
  {
    if n > 0 { PickedIs(rs, t, n - 1); }
  }

  ghost function Merged<V>(rs: seq<seq<Cell<V>>>): seq<Cell<V>>
    decreases Total(rs, |rs|)
  {
    var m := MinHead(rs, |rs|);
    if m.None? then []
    else
      MinHeadIs(rs, |rs|);
      PickedIs(rs, m.value, |rs|);
      DropShrinks(rs, m.value, |rs|);
      [Picked(rs, m.value, |rs|).value] + Merged(Dropped(rs, m.value))
  }

  // ------------------------------------------------------------------------ what the merge is

  /** How many cells have this time */
  ghost function Count<V>(r: seq<Cell<V>>, t: int): nat {
    if r == [] then 0 else (if r[0].ts == t then 1 else 0) + Count(r[1..], t)
  }

  /** The `j`-th cell with this time */
  ghost function Nth<V>(r: seq<Cell<V>>, t: int, j: nat): (c: Cell<V>)
    requires j < Count(r, t)
    ensures c.ts == t
  {
    if r[0].ts != t then Nth(r[1..], t, j) else if j == 0 then r[0] else Nth(r[1..], t, j - 1)
  }

  ghost predicate Sorted<V>(r: seq<Cell<V>>) {
    forall i, k :: 0 <= i < k < |r| ==> r[i].ts <= r[k].ts
  }

  ghost predicate AllSorted<V>(rs: seq<seq<Cell<V>>>) {
    forall b :: 0 <= b < |rs| ==> Sorted(rs[b])
  }

  /** The last of the first `n` with more than `j` cells of this time */
  ghost function Winner<V>(rs: seq<seq<Cell<V>>>, t: int, j: nat, n: nat): (r: Option<nat>)
    requires n <= |rs|
    ensures r.Some? ==> r.value < n && j < Count(rs[r.value], t)
    ensures r.Some? ==> forall b :: r.value < b < n ==> Count(rs[b], t) <= j
    ensures r.None? ==> forall b :: 0 <= b < n ==> Count(rs[b], t) <= j
  {
    if n == 0 then None else if j < Count(rs[n - 1], t) then Some(n - 1) else Winner(rs, t, j, n - 1)
  }

  lemma {:induction false} Absent<V>(r: seq<Cell<V>>, t: int)
    requires forall i :: 0 <= i < |r| ==> r[i].ts != t
    ensures Count(r, t) == 0
  {
    if r != [] { Absent(r[1..], t); }
  }

  lemma {:induction false} Present<V>(r: seq<Cell<V>>, i: nat)
    requires i < |r|
    ensures Count(r, r[i].ts) > 0
  {
    if i > 0 { Present(r[1..], i - 1); }
  }

  /** A round takes one cell of the least time from each block that has any. */
  lemma DropCounts<V>(r: seq<Cell<V>>, t: int, u: int)
    requires Sorted(r) && (r != [] ==> t <= r[0].ts)
    ensures Sorted(Drop(r, t))
    ensures u != t ==> Count(Drop(r, t), u) == Count(r, u)
    ensures HeadIs(r, t) ==> Count(r, t) == Count(Drop(r, t), t) + 1
    ensures !HeadIs(r, t) ==> Count(r, t) == Count(Drop(r, t), t) == 0
  {
    if r != [] && r[0].ts != t { Absent(r, t); }
  }

  lemma DropNth<V>(r: seq<Cell<V>>, t: int, u: int, j: nat)
    requires Sorted(r) && (r != [] ==> t <= r[0].ts) && j < Count(Drop(r, t), u)
    ensures if u == t then j + 1 < Count(r, u) && Nth(Drop(r, t), u, j) == Nth(r, u, j + 1)
            else j < Count(r, u) && Nth(Drop(r, t), u, j) == Nth(r, u, j)
  {
    DropCounts(r, t, u);
  }

  ghost predicate NoneBefore<V>(rs: seq<seq<Cell<V>>>, t: int) {
    forall b :: 0 <= b < |rs| && rs[b] != [] ==> t <= rs[b][0].ts
  }

  lemma {:induction false} WinnerDrop<V>(rs: seq<seq<Cell<V>>>, t: int, u: int, j: nat, n: nat)
    requires n <= |rs| && AllSorted(rs) && NoneBefore(rs, t)
    ensures u != t ==> Winner(Dropped(rs, t), u, j, n) == Winner(rs, u, j, n)
    ensures u == t ==> Winner(Dropped(rs, t), u, j, n) == Winner(rs, u, j + 1, n)
  {
    hide Count, Sorted, Dropped, Drop;
    if n > 0 {
      WinnerDrop(rs, t, u, j, n - 1);
      DroppedAt(rs, t, n - 1);
      DropCounts(rs[n - 1], t, u);
    }
  }

  lemma {:induction false} PickedWins<V>(rs: seq<seq<Cell<V>>>, t: int, n: nat)
    requires n <= |rs| && AllSorted(rs) && NoneBefore(rs, t)
    ensures var w := Winner(rs, t, 0, n);
      Picked(rs, t, n) == if w.None? then None else Some(Nth(rs[w.value], t, 0))
  {
    if n > 0 {
      PickedWins(rs, t, n - 1);
      DropCounts(rs[n - 1], t, t);
    }
  }

  lemma RoundKeeps<V>(rs: seq<seq<Cell<V>>>)
    requires AllSorted(rs) && MinHead(rs, |rs|).Some?
    ensures var t := MinHead(rs, |rs|).value;
      && AllSorted(Dropped(rs, t)) && NoneBefore(rs, t) && Picked(rs, t, |rs|).Some?
      && Picked(rs, t, |rs|).value.ts == t
      && Total(Dropped(rs, t), |rs|) < Total(rs, |rs|)
      && Merged(rs) == [Picked(rs, t, |rs|).value] + Merged(Dropped(rs, t))
  {
    hide Total, Picked, MinHead;
    var t := MinHead(rs, |rs|).value;
    MinHeadIs(rs, |rs|);
    PickedIs(rs, t, |rs|);
    DropShrinks(rs, t, |rs|);
    forall b | 0 <= b < |rs| ensures Sorted(Drop(rs[b], t)) { DropCounts(rs[b], t, t); }
  }

  /**
   * In the merge of sorted blocks a time occurs more than `j` times exactly when it does in some block, and the `j`-th
   * cell of that time is the `j`-th of the last such block.
   */
  lemma {:induction false} MergedIs<V>(rs: seq<seq<Cell<V>>>, u: int, j: nat)
    requires AllSorted(rs)
    ensures j < Count(Merged(rs), u) <==> exists b :: 0 <= b < |rs| && j < Count(rs[b], u)
    ensures j < Count(Merged(rs), u) ==>
      var w := Winner(rs, u, j, |rs|); w.Some? && Nth(Merged(rs), u, j) == Nth(rs[w.value], u, j)
    decreases Total(rs, |rs|)
  {
    hide Total, Picked, MinHead, Merged, Winner, Dropped, Drop;
    var m := MinHead(rs, |rs|);
    if m.None? {
      MinHeadIs(rs, |rs|);
      MergedNone(rs);
    } else {
      var t := m.value;
      RoundKeeps(rs);
      var rest := Dropped(rs, t);
      var k := if u == t && j > 0 then j - 1 else j;
      MergedIs(rest, u, k);
      WinnerDrop(rs, t, u, k, |rs|);
      var w := Winner(rs, u, j, |rs|);
      if u == t && j == 0 {
        PickedWins(rs, t, |rs|);
      } else if w.Some? {
        DroppedAt(rs, t, w.value);
        DropCounts(rs[w.value], t, u);
        DropNth(rs[w.value], t, u, k);
      }
    }
  }

  lemma MergedNone<V>(rs: seq<seq<Cell<V>>>)
    requires MinHead(rs, |rs|).None?
    ensures Merged(rs) == []
  {
  }

  lemma DroppedAt<V>(rs: seq<seq<Cell<V>>>, t: int, b: nat)
    requires b < |rs|
    ensures Dropped(rs, t)[b] == Drop(rs[b], t)
  {
  }

  /** No time comes up that no block has. */
  lemma MergedFrom<V>(rs: seq<seq<Cell<V>>>, i: nat) returns (b: nat, k: nat)
    requires AllSorted(rs) && i < |Merged(rs)|
    ensures b < |rs| && k < |rs[b]| && rs[b][k].ts == Merged(rs)[i].ts
  {
    hide Merged;
    var u := Merged(rs)[i].ts;
    Present(Merged(rs), i);
    MergedIs(rs, u, 0);
    b :| 0 <= b < |rs| && 0 < Count(rs[b], u);
    if forall k :: 0 <= k < |rs[b]| ==> rs[b][k].ts != u { Absent(rs[b], u); }
    k :| 0 <= k < |rs[b]| && rs[b][k].ts == u;
  }

  lemma {:induction false} MergedSorted<V>(rs: seq<seq<Cell<V>>>)
    requires AllSorted(rs)
    ensures Sorted(Merged(rs))
    decreases Total(rs, |rs|)
  {
    hide Total, Picked, MinHead, Merged;
    if MinHead(rs, |rs|).None? {
      MergedNone(rs);
    } else {
      RoundKeeps(rs);
      var t := MinHead(rs, |rs|).value;
      var rest := Dropped(rs, t);
      MergedSorted(rest);
      forall i | 0 <= i < |Merged(rest)| ensures t <= Merged(rest)[i].ts {
        var b, k := MergedFrom(rest, i);
      }
    }
  }

  ghost predicate Ascending<V>(r: seq<Cell<V>>) {
    forall i, k :: 0 <= i < k < |r| ==> r[i].ts < r[k].ts
  }

  lemma {:induction false} AtMostOnce<V>(r: seq<Cell<V>>, u: int)
    ensures Ascending(r) ==> Count(r, u) <= 1
  {
    if Ascending(r) && r != [] {
      if r[0].ts == u { Absent(r[1..], u); } else { AtMostOnce(r[1..], u); }
    }
  }

  lemma {:induction false} OnceEach<V>(r: seq<Cell<V>>, i: nat, k: nat)
    requires i < k < |r| && r[i].ts == r[k].ts
    ensures Count(r, r[i].ts) > 1
  {
    if i == 0 { Present(r[1..], k - 1); } else { OnceEach(r[1..], i - 1, k - 1); }
  }

  /** Blocks without repeated times give the union of their times, each once, with the cell of the last block having it. */
  lemma AscendingUnion<V>(rs: seq<seq<Cell<V>>>)
    requires forall b :: 0 <= b < |rs| ==> Ascending(rs[b])
    ensures Ascending(Merged(rs))
    ensures forall u :: Count(Merged(rs), u) == if exists b :: 0 <= b < |rs| && Count(rs[b], u) > 0 then 1 else 0
    ensures forall u :: Count(Merged(rs), u) > 0 ==>
      var w := Winner(rs, u, 0, |rs|); w.Some? && Nth(Merged(rs), u, 0) == Nth(rs[w.value], u, 0)
  {
    hide Merged, Winner, Nth;
    MergedSorted(rs);
    forall u
      ensures Count(Merged(rs), u) == if exists b :: 0 <= b < |rs| && Count(rs[b], u) > 0 then 1 else 0
      ensures Count(Merged(rs), u) > 0 ==>
        var w := Winner(rs, u, 0, |rs|); w.Some? && Nth(Merged(rs), u, 0) == Nth(rs[w.value], u, 0)
    {
      MergedIs(rs, u, 0);
      MergedIs(rs, u, 1);
      forall b | 0 <= b < |rs| ensures Count(rs[b], u) <= 1 { AtMostOnce(rs[b], u); }
    }
    forall i, k | 0 <= i < k < |Merged(rs)| ensures Merged(rs)[i].ts < Merged(rs)[k].ts {
      if Merged(rs)[i].ts == Merged(rs)[k].ts { OnceEach(Merged(rs), i, k); }
    }
  }

  // ------------------------------------------------------------------------ the loops

  /** What is left of a block: the cell taken out, and what has not been read */
  ghost function Left<V>(b: Block<V>, head: Option<Cell<V>>): seq<Cell<V>>
    requires Readable(b)
  {
    (if head.Some? then [head.value] else []) + CellsFrom(b, b.index)
  }

  ghost predicate AllReadable<V>(blocks: seq<Block<V>>) {
    forall b :: 0 <= b < |blocks| ==> Readable(blocks[b])
  }

  ghost function AllLeft<V>(blocks: seq<Block<V>>, buf: seq<Option<Cell<V>>>): (rs: seq<seq<Cell<V>>>)
    requires AllReadable(blocks) && |buf| == |blocks|
    ensures |rs| == |blocks|
  {
    seq(|blocks|, b requires 0 <= b < |blocks| => Left(blocks[b], buf[b]))
  }

  /** `DataBlock::next` */
  method Next<V>(b: Block<V>) returns (r: Block<V>, c: Option<Cell<V>>)
    requires Readable(b)
    ensures Readable(r) && Left(r, c) == Left(b, None) && (c.None? <==> Left(b, None) == [])
  {
    if b.index == |b.ts| {
      return b, None;
    }
    r, c := b.(index := b.index + 1), Some(Cell(b.kind, b.ts[b.index], b.val[b.index]));
    assert CellsFrom(b, b.index) == [c.value] + CellsFrom(r, r.index);
  }

  /** `rebuild_vec`: every block shows its first cell, and the least time of them */
  method RebuildVec<V>(blocks: seq<Block<V>>, buf: seq<Option<Cell<V>>>)
    returns (bs: seq<Block<V>>, heads: seq<Option<Cell<V>>>, min: Option<int>)
    requires AllReadable(blocks) && |buf| == |blocks|
    ensures |heads| == |bs| == |blocks| && AllReadable(bs) && AllLeft(bs, heads) == AllLeft(blocks, buf)
    ensures forall b :: 0 <= b < |bs| ==> (heads[b].None? <==> Left(bs[b], heads[b]) == [])
    ensures min == MinHead(AllLeft(bs, heads), |bs|)
  {
    hide Left, MinHead, AllLeft;
    AllLeftIs(blocks, buf);
    bs, heads, min := blocks, buf, None;
    ghost var rs := AllLeft(blocks, buf);
    NothingYet(rs, 0);
    for i := 0 to |blocks|
      invariant |heads| == |bs| == |blocks| && AllReadable(bs)
      invariant forall b :: 0 <= b < |bs| ==> Left(bs[b], heads[b]) == rs[b]
      invariant forall b :: i <= b < |bs| ==> bs[b] == blocks[b] && heads[b] == buf[b]
      invariant forall b :: 0 <= b < i ==> (heads[b].None? <==> rs[b] == [])
      invariant min == MinHead(rs, i)
    {
      if heads[i].None? {
        var b, c := Next(bs[i]);
        bs, heads := bs[i := b], heads[i := c];
      }
      MinHeadMore(rs, i);
      LeftIs(bs[i], heads[i]);
      if heads[i].Some? {
        if min.None? || heads[i].value.ts < min.value {
          min := Some(heads[i].value.ts);
        }
      }
    }
    AllLeftIs(bs, heads);
    assert AllLeft(bs, heads) == rs;
  }

  /** One round: the last cell of the least time, and all of them taken */
  method TakeMin<V>(ghost blocks: seq<Block<V>>, buf: seq<Option<Cell<V>>>, min: int)
    returns (heads: seq<Option<Cell<V>>>, data: Option<Cell<V>>)
    requires AllReadable(blocks) && |buf| == |blocks|
    requires forall b :: 0 <= b < |buf| ==> (buf[b].None? <==> Left(blocks[b], buf[b]) == [])
    ensures |heads| == |buf| && AllLeft(blocks, heads) == Dropped(AllLeft(blocks, buf), min)
    ensures data == Picked(AllLeft(blocks, buf), min, |buf|)
  {
    hide Left, Picked, Dropped, AllLeft;
    AllLeftIs(blocks, buf);
    heads, data := buf, None;
    ghost var rs := AllLeft(blocks, buf);
    NothingYet(rs, min);
    for i := 0 to |buf|
      invariant |heads| == |buf|
      invariant forall b :: 0 <= b < i ==> Left(blocks[b], heads[b]) == Drop(rs[b], min)
      invariant forall b :: i <= b < |buf| ==> heads[b] == buf[b]
      invariant data == Picked(rs, min, i)
    {
      LeftIs(blocks[i], buf[i]);
      PickedMore(rs, min, i);
      if heads[i].Some? && heads[i].value.ts == min {
        data := heads[i];
        heads := heads[i := None];
      }
    }
    AllLeftIs(blocks, heads);
    DroppedIs(rs, min);
    assert AllLeft(blocks, heads) == Dropped(rs, min);
  }

  lemma AllLeftIs<V>(blocks: seq<Block<V>>, buf: seq<Option<Cell<V>>>)
    requires AllReadable(blocks) && |buf| == |blocks|
    ensures forall b :: 0 <= b < |blocks| ==> AllLeft(blocks, buf)[b] == Left(blocks[b], buf[b])
  {
  }

  lemma DroppedIs<V>(rs: seq<seq<Cell<V>>>, t: int)
    ensures forall b :: 0 <= b < |rs| ==> Dropped(rs, t)[b] == Drop(rs[b], t)
  {
  }

  lemma LeftIs<V>(b: Block<V>, c: Option<Cell<V>>)
    requires Readable(b)
    ensures c.Some? ==> Left(b, c) != [] && Left(b, c)[0] == c.value && Left(b, c)[1..] == Left(b, None)
  {
  }

  lemma NothingYet<V>(rs: seq<seq<Cell<V>>>, t: int)
    ensures Picked(rs, t, 0) == None && MinHead(rs, 0) == None
  {
  }

  lemma MinHeadMore<V>(rs: seq<seq<Cell<V>>>, n: nat)
    requires n < |rs|
    ensures var m := MinHead(rs, n);
      MinHead(rs, n + 1) ==
      if rs[n] == [] || (m.Some? && m.value <= rs[n][0].ts) then m else Some(rs[n][0].ts)
  {
  }

  lemma PickedMore<V>(rs: seq<seq<Cell<V>>>, t: int, n: nat)
    requires n < |rs|
    ensures Picked(rs, t, n + 1) == if HeadIs(rs[n], t) then Some(rs[n][0]) else Picked(rs, t, n)
  {
  }

  /** `insert`: a cell of another type is dropped. */
  ghost function Kept<V>(r: seq<Cell<V>>, kind: Kind): seq<Cell<V>> {
    if r == [] then [] else (if r[0].kind == kind then [r[0]] else []) + Kept(r[1..], kind)
  }

  lemma {:induction false} KeptAll<V>(r: seq<Cell<V>>, kind: Kind)
    requires forall i :: 0 <= i < |r| ==> r[i].kind == kind
    ensures Kept(r, kind) == r
  {
    if r != [] { KeptAll(r[1..], kind); }
  }

  ghost predicate OfKind<V>(r: seq<Cell<V>>, kind: Kind) {
    forall i :: 0 <= i < |r| ==> r[i].kind == kind
  }

  lemma {:induction false} PickedOfKind<V>(rs: seq<seq<Cell<V>>>, t: int, n: nat, kind: Kind)
    requires n <= |rs| && forall b :: 0 <= b < |rs| ==> OfKind(rs[b], kind)
    ensures Picked(rs, t, n).Some? ==> Picked(rs, t, n).value.kind == kind
  {
    if n > 0 { PickedOfKind(rs, t, n - 1, kind); }
  }

  /** Nothing is dropped from blocks of one type. */
  lemma {:induction false} MergedOfKind<V>(rs: seq<seq<Cell<V>>>, kind: Kind)
    requires forall b :: 0 <= b < |rs| ==> OfKind(rs[b], kind)
    ensures OfKind(Merged(rs), kind) && Kept(Merged(rs), kind) == Merged(rs)
    decreases Total(rs, |rs|)
  {
    hide Total, Picked, MinHead, Merged, Kept;
    if MinHead(rs, |rs|).None? {
      MergedNone(rs);
    } else {
      var t := MinHead(rs, |rs|).value;
      Round(rs);
      PickedOfKind(rs, t, |rs|, kind);
      MergedOfKind(Dropped(rs, t), kind);
    }
    KeptAll(Merged(rs), kind);
  }

  /** One turn of the loop of `merge_blocks` */
  method OneRound<V>(blocks: seq<Block<V>>, heads: seq<Option<Cell<V>>>, was: Block<V>)
    returns (bs: seq<Block<V>>, buf: seq<Option<Cell<V>>>, res: Block<V>, more: bool)
    requires |heads| == |blocks| && AllReadable(blocks) && Readable(was) && was.index == 0
    ensures |buf| == |bs| == |blocks| && AllReadable(bs) && Readable(res) && res.kind == was.kind && res.index == 0
    ensures var rs := AllLeft(blocks, heads);
      if more then
        && CellsFrom(res, 0) + Kept(Merged(AllLeft(bs, buf)), res.kind) == CellsFrom(was, 0) + Kept(Merged(rs), res.kind)
        && Total(AllLeft(bs, buf), |bs|) < Total(rs, |bs|)
      else res == was && Merged(rs) == []
  {
    hide CellsFrom, Total, Picked, MinHead, Merged, Dropped, AllLeft, Left, Kept;
    ghost var rs := AllLeft(blocks, heads);
    var min: Option<int>;
    res := was;
    bs, buf, min := RebuildVec(blocks, heads);
    more := min.Some?;
    if min.None? {
      MergedNone(rs);
    } else {
      var data: Option<Cell<V>>;
      Round(rs);
      buf, data := TakeMin(bs, buf, min.value);
      KeptCons(data.value, Merged(AllLeft(bs, buf)), res.kind);
      if data.value.kind == res.kind {
        InsertCell(res, data.value);
        res := res.(ts := res.ts + [data.value.ts], val := res.val + [data.value.val]);
      }
    }
  }

  /** `merge_blocks`: one block is given back as it is, several are merged. */
  method MergeBlocks<V>(blocks: seq<Block<V>>) returns (res: Block<V>)
    requires |blocks| > 0 && AllReadable(blocks)
    ensures |blocks| == 1 ==> res == blocks[0]
    ensures |blocks| > 1 ==> res.kind == blocks[0].kind && res.index == 0 && Readable(res)
    ensures |blocks| > 1 ==>
      CellsFrom(res, 0) == Kept(Merged(AllLeft(blocks, seq(|blocks|, _ => None))), blocks[0].kind)
  {
    if |blocks| == 1 {
      return blocks[0];
    }
    hide CellsFrom, Total, Merged, AllLeft, Kept;
    res := Block(blocks[0].kind, 0, [], []);
    var bs, buf := blocks, seq(|blocks|, _ => None);
    ghost var all := Kept(Merged(AllLeft(blocks, buf)), res.kind);
    EmptyBlock(res);
    KeptNone<V>(res.kind);
    var more := true;
    while more
      invariant |buf| == |bs| == |blocks| && AllReadable(bs) && Readable(res)
      invariant res.kind == blocks[0].kind && res.index == 0
      invariant all == CellsFrom(res, 0) + if more then Kept(Merged(AllLeft(bs, buf)), res.kind) else []
      decreases more, Total(AllLeft(bs, buf), |bs|)
    {
      bs, buf, res, more := OneRound(bs, buf, res);
    }
  }

  lemma KeptCons<V>(c: Cell<V>, r: seq<Cell<V>>, kind: Kind)
    ensures Kept([c] + r, kind) == (if c.kind == kind then [c] else []) + Kept(r, kind)
  {
    assert ([c] + r)[1..] == r;
  }

  lemma KeptNone<V>(kind: Kind)
    ensures Kept<V>([], kind) == []
  {
  }

  lemma Round<V>(rs: seq<seq<Cell<V>>>)
    requires MinHead(rs, |rs|).Some?
    ensures var t := MinHead(rs, |rs|).value;
      && Picked(rs, t, |rs|).Some? && Total(Dropped(rs, t), |rs|) < Total(rs, |rs|)
      && Merged(rs) == [Picked(rs, t, |rs|).value] + Merged(Dropped(rs, t))
  {
    hide Total, Picked, MinHead;
    var t := MinHead(rs, |rs|).value;
    MinHeadIs(rs, |rs|);
    PickedIs(rs, t, |rs|);
    DropShrinks(rs, t, |rs|);
  }

  lemma EmptyBlock<V>(b: Block<V>)
    requires b.ts == [] && b.val == []
    ensures CellsFrom(b, 0) == []
  {
  }

  lemma InsertCell<V>(b: Block<V>, c: Cell<V>)
    requires |b.ts| == |b.val| && c.kind == b.kind
    ensures CellsFrom(b.(ts := b.ts + [c.ts], val := b.val + [c.val]), 0) == CellsFrom(b, 0) + [c]
  {
  }

  /**
   * Several blocks of one type, each in order of time from its read index on: the result is in order, has a time as often
   * as the block that has it most often, and its `j`-th cell of a time is the `j`-th of the last block that has so many.
   */
  method MergeSorted<V>(blocks: seq<Block<V>>) returns (res: Block<V>)
    requires |blocks| > 1 && AllReadable(blocks) && forall b :: 0 <= b < |blocks| ==> blocks[b].kind == blocks[0].kind
    requires forall b :: 0 <= b < |blocks| ==> Sorted(CellsFrom(blocks[b], blocks[b].index))
    ensures Readable(res) && res.kind == blocks[0].kind && Sorted(CellsFrom(res, 0))
    ensures forall t: int, j: nat :: LastWins(Rest(blocks), CellsFrom(res, 0), t, j)
  {
    hide Merged, Kept, Count, Nth, Winner, Sorted, CellsFrom;
    res := MergeBlocks(blocks);
    ghost var rs := Rest(blocks);
    RestIs(blocks);
    MergedOfKind(rs, blocks[0].kind);
    MergedSorted(rs);
    forall t: int, j: nat ensures LastWins(rs, CellsFrom(res, 0), t, j) { MergedIs(rs, t, j); }
  }

  /** There is a `j`-th cell of this time exactly if some block has one, and it is that of the last such block. */
  ghost predicate LastWins<V>(rs: seq<seq<Cell<V>>>, r: seq<Cell<V>>, t: int, j: nat) {
    && (j < Count(r, t) <==> exists b :: 0 <= b < |rs| && j < Count(rs[b], t))
    && (j < Count(r, t) ==> var w := Winner(rs, t, j, |rs|); w.Some? && Nth(r, t, j) == Nth(rs[w.value], t, j))
  }

  /** What each block still has */
  ghost function Rest<V>(blocks: seq<Block<V>>): (rs: seq<seq<Cell<V>>>)
    requires AllReadable(blocks)
    ensures |rs| == |blocks| && forall b :: 0 <= b < |rs| ==> rs[b] == CellsFrom(blocks[b], blocks[b].index)
  {
    seq(|blocks|, b requires 0 <= b < |blocks| => CellsFrom(blocks[b], blocks[b].index))
  }

  lemma RestIs<V>(blocks: seq<Block<V>>)
    requires AllReadable(blocks)
    ensures AllLeft(blocks, seq(|blocks|, _ => None)) == Rest(blocks)
    ensures forall b, kind :: 0 <= b < |blocks| && blocks[b].kind == kind ==> OfKind(Rest(blocks)[b], kind)
  {
    var ls := AllLeft(blocks, seq(|blocks|, _ => None));
    forall b | 0 <= b < |blocks| ensures ls[b] == Rest(blocks)[b] {
      assert [] + CellsFrom(blocks[b], blocks[b].index) == CellsFrom(blocks[b], blocks[b].index);
    }
  }
}
