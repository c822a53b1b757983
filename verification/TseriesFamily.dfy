/** A time-series family: which cache a cell goes to, when caches are switched, and what is sent to be flushed. */
module TseriesFamily {
  import opened Memcache

  /** The caches a reader is given */
  datatype SuperVersion = SuperVersion(delta: MemCache, mut: MemCache, immut: seq<MemCache>, versionId: nat)

  ghost function Flat(requests: seq<seq<MemCache>>): seq<MemCache> {
    if requests == [] then [] else Flat(requests[..|requests| - 1]) + requests[|requests| - 1]
  }

  lemma FlatMore(requests: seq<seq<MemCache>>, ms: seq<MemCache>)
    ensures Flat(requests + [ms]) == Flat(requests) + ms
  {
    assert (requests + [ms])[..|requests|] == requests;
  }

  lemma {:induction false} FlatHas(requests: seq<seq<MemCache>>, i: nat, m: MemCache)
    requires i < |requests| && m in requests[i]
    ensures m in Flat(requests)
  {
    if i < |requests| - 1 { FlatHas(requests[..|requests| - 1], i, m); }
  }

  /** The cells of one time that a field has here, in their order */
  ghost function OfTimeIn(data: map<FieldId, MemEntry>, f: FieldId, t: Timestamp): seq<Cell> {
    OfTime(CellsIn(data, f), t)
  }

  /** ... in a cache, if it is a delta cache or not as asked */
  ghost function Part(m: MemCache, delta: bool, f: FieldId, t: Timestamp): seq<Cell>
    reads m
  {
    if m.isDelta == delta then OfTimeIn(m.data, f, t) else []
  }

  /** ... and in all of these */
  ghost function Line(ms: seq<MemCache>, delta: bool, f: FieldId, t: Timestamp): seq<Cell>
    reads ms
  {
    if ms == [] then [] else Line(ms[..|ms| - 1], delta, f, t) + Part(ms[|ms| - 1], delta, f, t)
  }

  lemma LineLast(ms: seq<MemCache>, delta: bool, f: FieldId, t: Timestamp)
    requires ms != []
    ensures Line(ms, delta, f, t) == Line(ms[..|ms| - 1], delta, f, t) + Part(ms[|ms| - 1], delta, f, t)
  {
  }

  lemma {:induction false} LineSplits(a: seq<MemCache>, b: seq<MemCache>, delta: bool, f: FieldId, t: Timestamp)
    ensures Line(a + b, delta, f, t) == Line(a, delta, f, t) + Line(b, delta, f, t)
    decreases |b|
  {
    hide Part;
    if b == [] {
      assert a + b == a;
    } else {
      var init, last := b[..|b| - 1], b[|b| - 1];
      assert (a + b)[..|a + b| - 1] == a + init && (a + b)[|a + b| - 1] == last;
      LineSplits(a, init, delta, f, t);
      LineLast(a + b, delta, f, t);
      LineLast(b, delta, f, t);
      hide Line;
      assert Line(a, delta, f, t) + Line(init, delta, f, t) + Part(last, delta, f, t) ==
             Line(a, delta, f, t) + (Line(init, delta, f, t) + Part(last, delta, f, t));
    }
  }

  lemma LineOne(m: MemCache, delta: bool, f: FieldId, t: Timestamp)
    ensures Line([m], delta, f, t) == Part(m, delta, f, t)
  {
    assert [m][..0] == [];
  }

  lemma {:induction false} NoDeltaLine(ms: seq<MemCache>, f: FieldId, t: Timestamp)
    requires forall m :: m in ms ==> !m.isDelta
    ensures Line(ms, true, f, t) == []
  {
    if ms != [] { NoDeltaLine(ms[..|ms| - 1], f, t); }
  }

  ghost function LineIn(datas: seq<map<FieldId, MemEntry>>, f: FieldId, t: Timestamp): seq<Cell> {
    if datas == [] then [] else LineIn(datas[..|datas| - 1], f, t) + OfTimeIn(datas[|datas| - 1], f, t)
  }

  lemma {:induction false} LineIs(ms: seq<MemCache>, datas: seq<map<FieldId, MemEntry>>, delta: bool, f: FieldId, t: Timestamp)
    requires |datas| == |ms| && forall k :: 0 <= k < |ms| ==> ms[k].data == datas[k] && !ms[k].isDelta
    ensures Line(ms, delta, f, t) == if delta then [] else LineIn(datas, f, t)
    decreases |ms|
  {
    if ms != [] { LineIs(ms[..|ms| - 1], datas[..|datas| - 1], delta, f, t); }
  }

  predicate Inside(t: Timestamp, r: TimeRange) {
    r.minTs <= t <= r.maxTs
  }

  /** What a deletion leaves, cache by cache, it leaves in all. */
  lemma {:induction false} LineDeleted(was: seq<map<FieldId, MemEntry>>, now: seq<map<FieldId, MemEntry>>, r: TimeRange,
                                       f: FieldId, t: Timestamp)
    requires |now| == |was|
    requires forall k :: 0 <= k < |now| ==> OfTimeIn(now[k], f, t) == if Inside(t, r) then [] else OfTimeIn(was[k], f, t)
    ensures LineIn(now, f, t) == if Inside(t, r) then [] else LineIn(was, f, t)
    decreases |now|
  {
    if now != [] { LineDeleted(was[..|was| - 1], now[..|now| - 1], r, f, t); }
  }

  /** What a deletion leaves */
  lemma DeletedIn(was: map<FieldId, MemEntry>, now: map<FieldId, MemEntry>, r: TimeRange)
    requires forall g :: CellsIn(now, g) == Retain(CellsIn(was, g), r)
    ensures forall g, t :: OfTimeIn(now, g, t) == if Inside(t, r) then [] else OfTimeIn(was, g, t)
  {
    forall g, t ensures OfTimeIn(now, g, t) == if Inside(t, r) then [] else OfTimeIn(was, g, t) {
      RetainOfTime(CellsIn(was, g), r, t);
    }
  }

  /** What is there after an insertion */
  lemma InsertedIn(was: map<FieldId, MemEntry>, now: map<FieldId, MemEntry>, f: FieldId, c: Cell)
    requires CellsIn(now, f) == CellsIn(was, f) + [c] && forall g :: g != f ==> CellsIn(now, g) == CellsIn(was, g)
    ensures forall g, t :: OfTimeIn(now, g, t) == OfTimeIn(was, g, t) + Placed(g == f && t == c.ts, c)
  {
    forall g, t ensures OfTimeIn(now, g, t) == OfTimeIn(was, g, t) + Placed(g == f && t == c.ts, c) {
      OfTimeMore(CellsIn(was, f), c, t);
    }
  }

  /** ... and after sorting */
  lemma SortedIn(was: map<FieldId, MemEntry>, now: map<FieldId, MemEntry>)
    requires forall g, t :: OfTime(CellsIn(now, g), t) == OfTime(CellsIn(was, g), t)
    ensures forall g, t :: OfTimeIn(now, g, t) == OfTimeIn(was, g, t)
  {
  }

  lemma OtherPart(m: MemCache, delta: bool, f: FieldId, t: Timestamp)
    requires delta != m.isDelta
    ensures Part(m, delta, f, t) == []
  {
  }

  /** Requests, immutable caches, mutable cache and delta cache, one longer */
  lemma Joined(a: seq<Cell>, b: seq<Cell>, p: seq<Cell>, q: seq<Cell>, x: seq<Cell>)
    ensures a + (b + p + (q + x)) == a + (b + p + q) + x
    ensures q == [] ==> a + (b + (p + x) + q) == a + (b + p + q) + x
    ensures (b == [] && p == []) || q == [] ==> a + q + (b + p + []) == a + (b + p + q)
    ensures a + (b + p + [] + q) == a + (b + p + q)
  {
  }

  /** How often the cell is among these */
  ghost function Times(cells: seq<Cell>, c: Cell): nat {
    multiset(cells)[c]
  }

  /** The cells of a time tell how often a cell of that time is among all. */
  lemma {:induction false} OfTimeCounts(cells: seq<Cell>, c: Cell)
    ensures Times(OfTime(cells, c.ts), c) == Times(cells, c)
  {
    if cells != [] {
      OfTimeCounts(cells[..|cells| - 1], c);
      assert cells == cells[..|cells| - 1] + [cells[|cells| - 1]];
    }
  }

  ghost function Added(one: bool): nat {
    if one then 1 else 0
  }

  ghost function Placed(one: bool, c: Cell): seq<Cell> {
    if one then [c] else []
  }

  datatype Op = Put(seqNo: nat, f: FieldId, c: Cell) | Delete(r: TimeRange)

  /** How often the cell is put */
  ghost function Puts(ops: seq<Op>, f: FieldId, c: Cell): nat {
    if ops == [] then 0
    else
      var op := ops[|ops| - 1];
      Puts(ops[..|ops| - 1], f, c) + Added(op.Put? && op.f == f && op.c == c)
  }

  lemma PutsMore(ops: seq<Op>, op: Op, f: FieldId, c: Cell)
    ensures Puts(ops + [op], f, c) == Puts(ops, f, c) + Added(op.Put? && op.f == f && op.c == c)
  {
    assert (ops + [op])[..|ops|] == ops;
  }

  ghost function PutBy(op: Op, f: FieldId, t: Timestamp): seq<Cell> {
    if op.Put? && op.f == f && op.c.ts == t then [op.c] else []
  }

  /** The cells of one time that are put, in their order */
  ghost function PutsOf(ops: seq<Op>, f: FieldId, t: Timestamp): seq<Cell> {
    if ops == [] then []
    else
      var op := ops[|ops| - 1];
      PutsOf(ops[..|ops| - 1], f, t) + PutBy(op, f, t)
  }

  lemma PutsOfMore(ops: seq<Op>, op: Op, f: FieldId, t: Timestamp)
    ensures PutsOf(ops + [op], f, t) == PutsOf(ops, f, t) + PutBy(op, f, t)
  {
    assert (ops + [op])[..|ops|] == ops;
  }

  /** No deletion is of this time. */
  ghost predicate Spared(ops: seq<Op>, t: Timestamp) {
    forall i :: 0 <= i < |ops| && ops[i].Delete? ==> !Inside(t, ops[i].r)
  }

  class TseriesFamily {
    const maxMemcacheSize: nat
    const maxImmutNum: nat
    const cellSize: nat
    var mutCache: MemCache
    var deltaMutCache: MemCache
    var immutCache: seq<MemCache>
    var superVersion: SuperVersion
    var superVersionId: nat
    var seqNo: nat
    var immutTsMin: Timestamp
    var mutTsMax: Timestamp
    var maxLevelTs: Timestamp
    /** The flush requests sent, and the caches in each */
    var requests: seq<seq<MemCache>>
    /** The times that separate them, and all their caches in one */
    ghost var marks: seq<Timestamp>
    ghost var sent: seq<MemCache>
    /** How often the field had the cell in a cache when a deletion took it */
    ghost var deleted: (FieldId, Cell) -> nat

    ghost function Owned(): set<MemCache>
      reads this`mutCache, this`deltaMutCache, this`immutCache
    {
      {mutCache, deltaMutCache} + set m | m in immutCache
    }

    /** The cells of one time that a field has in the caches, and in the requests, the oldest cache first */
    ghost function InCaches(delta: bool, f: FieldId, t: Timestamp): seq<Cell>
      reads this`mutCache, this`deltaMutCache, this`immutCache, mutCache, deltaMutCache, immutCache
    {
      Line(immutCache, delta, f, t) + Part(mutCache, delta, f, t) + Part(deltaMutCache, delta, f, t)
    }

    ghost function InRequests(delta: bool, f: FieldId, t: Timestamp): seq<Cell>
      reads this`sent, sent
    {
      Line(sent, delta, f, t)
    }

    ghost function Total(delta: bool, f: FieldId, t: Timestamp): seq<Cell>
      reads this`mutCache, this`deltaMutCache, this`immutCache, this`sent, mutCache, deltaMutCache, immutCache, sent
    {
      InRequests(delta, f, t) + InCaches(delta, f, t)
    }

    /** All of them, deltas last */
    ghost function Timeline(f: FieldId, t: Timestamp): seq<Cell>
      reads this`mutCache, this`deltaMutCache, this`immutCache, this`sent, mutCache, deltaMutCache, immutCache, sent
    {
      Total(false, f, t) + Total(true, f, t)
    }

    /** How often the field has the cell in a cache, and anywhere */
    ghost function Cached(f: FieldId, c: Cell): nat
      reads this`mutCache, this`deltaMutCache, this`immutCache, mutCache, deltaMutCache, immutCache
    {
      Times(InCaches(false, f, c.ts), c) + Times(InCaches(true, f, c.ts), c)
    }

    ghost function Everywhere(f: FieldId, c: Cell): nat
      reads this`mutCache, this`deltaMutCache, this`immutCache, this`sent, mutCache, deltaMutCache, immutCache, sent
    {
      Times(Timeline(f, c.ts), c)
    }

    /** A time that delta cells have is before the watermark. */
    ghost predicate DeltaEarly()
      reads this`mutCache, this`deltaMutCache, this`immutCache, this`sent, mutCache, deltaMutCache, immutCache, sent
      reads this`immutTsMin
    {
      forall f, t: Timestamp :: Total(true, f, t) != [] ==> t < immutTsMin
    }

    /** The super-version is the current caches. */
    ghost predicate Aliased()
      reads this`mutCache, this`deltaMutCache, this`immutCache, this`superVersion, this`superVersionId
    {
      superVersion == SuperVersion(deltaMutCache, mutCache, immutCache, superVersionId)
    }

    /** No cache is in two places. */
    ghost predicate Distinct()
      reads this`mutCache, this`deltaMutCache, this`immutCache, this`sent, this`requests
    {
      && mutCache != deltaMutCache && mutCache !in immutCache && deltaMutCache !in immutCache
      && (forall i, k :: 0 <= i < k < |immutCache| ==> immutCache[i] != immutCache[k])
      && (forall m :: m in Owned() ==> m !in sent)
      && sent == Flat(requests)
    }

    ghost predicate Kinds()
      reads this`mutCache, this`deltaMutCache, this`immutCache, mutCache, deltaMutCache, immutCache
    {
      && deltaMutCache.isDelta && !mutCache.isDelta && mutCache.Valid() && deltaMutCache.Valid()
      && forall m :: m in immutCache ==> !m.isDelta && m.Valid()
    }

    /** What is not delta is no earlier than the last mark, and no later than the latest cell. */
    ghost predicate Late()
      reads this`marks, this`immutTsMin, this`mutTsMax, this`mutCache, this`immutCache, mutCache, immutCache
    {
      && marks != []
      && marks[|marks| - 1] <= immutTsMin && marks[|marks| - 1] <= mutTsMax
      && mutCache.Between(marks[|marks| - 1], mutTsMax)
      && forall m :: m in immutCache ==> m.Between(marks[|marks| - 1], mutTsMax)
    }

    /** Caches have room for a cell, and once the mutable one has some the watermark is no later than the latest cell. */
    ghost predicate Rising()
      reads this`mutCache, this`immutTsMin, this`mutTsMax, mutCache`cacheSize
    {
      && mutCache.maxBufSize > 0 && maxMemcacheSize > 0
      && (mutCache.cacheSize > 0 ==> immutTsMin <= mutTsMax)
    }

    /** Each request is between two marks, deltas aside. */
    ghost predicate Marked()
      reads this`requests, this`marks, this`sent, sent
    {
      MarkedIn(requests, sent, marks)
    }

    static ghost predicate MarkedIn(requests: seq<seq<MemCache>>, all: seq<MemCache>, marks: seq<Timestamp>)
      reads all
    {
      |marks| == |requests| + 1 && forall i :: 0 <= i < |requests| ==> SlotAt(requests, all, marks, i)
    }

    static ghost predicate SlotAt(requests: seq<seq<MemCache>>, all: seq<MemCache>, marks: seq<Timestamp>, i: nat)
      requires i < |requests| == |marks| - 1
      reads all
    {
      Slot(requests[i], all, marks[i], marks[i + 1])
    }

    /** The caches of one request, which are among all that were sent */
    static ghost predicate Slot(ms: seq<MemCache>, all: seq<MemCache>, lo: int, hi: int)
      reads all
    {
      lo <= hi && forall m :: m in ms && m in all && !m.isDelta ==> m.Between(lo, hi)
    }

    ghost predicate Valid()
      reads this, mutCache, deltaMutCache, immutCache, sent
    {
      Aliased() && Distinct() && Kinds() && Late() && Marked()
    }

    constructor (maxMemcacheSize: nat, maxImmutNum: nat, cellSize: nat, cache: MemCache, seqNo: nat, maxLevelTs: Timestamp)
      requires cache.data == map[] && !cache.isDelta
      ensures Valid() && mutCache == cache && fresh(deltaMutCache) && immutCache == [] && requests == []
      ensures DeltaEarly() && forall f, t :: Timeline(f, t) == []
      ensures forall f, c :: deleted(f, c) == 0
      ensures maxMemcacheSize > 0 && cache.maxBufSize > 0 && cache.cacheSize == 0 ==> Rising()
    {
      this.maxMemcacheSize, this.maxImmutNum, this.cellSize := maxMemcacheSize, maxImmutNum, cellSize;
      var delta := new MemCache(maxMemcacheSize, seqNo, true);
      mutCache, deltaMutCache, immutCache := cache, delta, [];
      superVersion := SuperVersion(delta, cache, [], 0);
      superVersionId := 0;
      this.seqNo := seqNo;
      immutTsMin, mutTsMax := maxLevelTs, MIN_TS;
      this.maxLevelTs := maxLevelTs;
      requests := [];
      marks := [MIN_TS];
      sent := [];
      deleted := (f, c) => 0;
    }

    lemma Requested(was: seq<seq<MemCache>>, ms: seq<MemCache>)
      requires requests == was + [ms] && sent == Flat(was) + ms
      ensures sent == Flat(requests)
      ensures forall delta: bool, f, t ::
        InRequests(delta, f, t) == Line(Flat(was), delta, f, t) + Line(ms, delta, f, t)
    {
      hide Line;
      FlatMore(was, ms);
      forall delta: bool, f, t
        ensures InRequests(delta, f, t) == Line(Flat(was), delta, f, t) + Line(ms, delta, f, t)
      {
        LineSplits(Flat(was), ms, delta, f, t);
      }
    }

    /** The marks after one more request, whose caches are between the last mark and a new one */
    static lemma MoreMarked(was: seq<seq<MemCache>>, ms: seq<MemCache>, marks0: seq<Timestamp>, mark: Timestamp)
      requires MarkedIn(was, Flat(was), marks0) && Slot(ms, ms, marks0[|was|], mark)
      ensures MarkedIn(was + [ms], Flat(was) + ms, marks0 + [mark])
    {
      hide Flat, Slot, SlotAt;
      forall i | 0 <= i < |was| ensures SlotAt(was + [ms], Flat(was) + ms, marks0 + [mark], i) {
        OldSlot(was, ms, marks0, mark, i);
      }
      NewSlot(was, ms, marks0, mark);
    }

    lemma MarkedSize()
      requires Marked()
      ensures |marks| == |requests| + 1
    {
    }

    static lemma OldSlot(was: seq<seq<MemCache>>, ms: seq<MemCache>, marks0: seq<Timestamp>, mark: Timestamp, i: nat)
      requires i < |was| == |marks0| - 1 && SlotAt(was, Flat(was), marks0, i)
      ensures SlotAt(was + [ms], Flat(was) + ms, marks0 + [mark], i)
    {
      hide Flat, Slot;
      SlotWidens(was, i, ms, marks0[i], marks0[i + 1]);
    }

    static lemma NewSlot(was: seq<seq<MemCache>>, ms: seq<MemCache>, marks0: seq<Timestamp>, mark: Timestamp)
      requires |was| == |marks0| - 1 && Slot(ms, ms, marks0[|was|], mark)
      ensures SlotAt(was + [ms], Flat(was) + ms, marks0 + [mark], |was|)
    {
      hide Flat, Slot;
      LastSlot(Flat(was), ms, marks0[|was|], mark);
    }

    static lemma SlotWidens(was: seq<seq<MemCache>>, i: nat, ms: seq<MemCache>, lo: int, hi: int)
      requires i < |was| && Slot(was[i], Flat(was), lo, hi)
      ensures Slot(was[i], Flat(was) + ms, lo, hi)
    {
      hide Flat, MemCache.Between;
      forall m | m in was[i] ensures m in Flat(was) { FlatHas(was, i, m); }
    }

    static lemma LastSlot(all: seq<MemCache>, ms: seq<MemCache>, lo: int, hi: int)
      requires Slot(ms, ms, lo, hi)
      ensures Slot(ms, all + ms, lo, hi)
    {
      hide MemCache.Between;
    }

    /** Empty, and of the size that caches have */
    ghost predicate New(m: MemCache)
      reads m
    {
      m.data == map[] && m.cacheSize == 0 && m.maxBufSize == maxMemcacheSize
    }

    /** The caches are as they were, but for a new delta cache. */
    method RenewDelta()
      requires Kinds()
      modifies this`deltaMutCache, this`superVersion, this`superVersionId
      ensures fresh(deltaMutCache) && Kinds() && Aliased() && New(deltaMutCache)
    {
      deltaMutCache := new MemCache(maxMemcacheSize, seqNo, true);
      superVersionId := superVersionId + 1;
      superVersion := SuperVersion(deltaMutCache, mutCache, immutCache, superVersionId);
    }

    /** `wrap_delta_flush_req`: the delta cache is sent, and an empty one takes its place. */
    method WrapDeltaFlushReq()
      requires Valid()
      modifies this
      ensures Valid() && fresh(deltaMutCache) && requests == old(requests) + [[old(deltaMutCache)]] && deleted == old(deleted)
      ensures forall m :: m in Owned() ==> m in old(Owned()) || fresh(m)
      ensures mutCache == old(mutCache) && immutCache == old(immutCache) && New(deltaMutCache)
      ensures immutTsMin == old(immutTsMin) && mutTsMax == old(mutTsMax) && maxLevelTs == old(maxLevelTs)
      ensures forall delta: bool, f, t :: Total(delta, f, t) == old(Total(delta, f, t))
    {
      hide Flat, Line, MemCache.Valid, MemCache.Between, MemCache.Count, Aliased, MarkedIn, OfTimeIn;
      MarkedSize();
      var ms := [deltaMutCache];
      RenewDelta();
      requests := requests + [ms];
      marks := marks + [marks[|marks| - 1]];
      sent := sent + ms;
      Requested(old(requests), ms);
      MoreMarked(old(requests), ms, old(marks), old(marks)[|old(requests)|]);
      hide Marked, Kinds;
      forall delta: bool, f, t ensures Total(delta, f, t) == old(Total(delta, f, t)) {
        LineOne(ms[0], delta, f, t);
        EmptyPart(deltaMutCache, delta, f, t);
        NoDeltaLine(immutCache, f, t);
        OtherPart(if delta then mutCache else ms[0], delta, f, t);
        assert Line(immutCache, delta, f, t) == old(Line(immutCache, delta, f, t));
        Joined(old(Line(sent, delta, f, t)), Line(immutCache, delta, f, t), Part(mutCache, delta, f, t),
               Part(ms[0], delta, f, t), []);
      }
    }

    static lemma EmptyPart(m: MemCache, delta: bool, f: FieldId, t: Timestamp)
      requires m.data == map[]
      ensures Part(m, delta, f, t) == []
    {
    }

    static lemma EmptyBetween(m: MemCache)
      requires m.data == map[]
      ensures forall lo: int, hi: int :: m.Between(lo, hi)
    {
    }

    /** `wrap_flush_req`: the immutable caches are sent. */
    method WrapFlushReq()
      requires Valid() && mutCache.data == map[] && immutTsMin == mutTsMax
      modifies this
      ensures Valid() && immutCache == [] && requests == old(requests) + [old(immutCache)] && deleted == old(deleted)
      ensures forall m :: m in Owned() ==> m in old(Owned()) || fresh(m)
      ensures mutCache == old(mutCache) && deltaMutCache == old(deltaMutCache)
      ensures immutTsMin == old(immutTsMin) && mutTsMax == old(mutTsMax) && maxLevelTs == old(maxLevelTs)
      ensures forall delta: bool, f, t :: Total(delta, f, t) == old(Total(delta, f, t))
    {
      hide Flat, Line, MemCache.Valid, MemCache.Between, MemCache.Count, MarkedIn, OfTimeIn;
      MarkedSize();
      var ms := [];
      for i := 0 to |immutCache|
        invariant ms == immutCache[..i]
      {
        ms := ms + [immutCache[i]];
      }
      assert ms == immutCache;
      immutCache := [];
      superVersionId := superVersionId + 1;
      superVersion := SuperVersion(deltaMutCache, mutCache, immutCache, superVersionId);
      requests := requests + [ms];
      marks := marks + [mutTsMax];
      sent := sent + ms;
      Requested(old(requests), ms);
      MoreMarked(old(requests), ms, old(marks), mutTsMax);
      forall delta: bool, f, t ensures Total(delta, f, t) == old(Total(delta, f, t)) {
        NoLine(delta, f, t);
        assert Line(ms, delta, f, t) == old(Line(immutCache, delta, f, t));
      }
      EmptyBetween(mutCache);
    }

    static lemma NoLine(delta: bool, f: FieldId, t: Timestamp)
      ensures Line([], delta, f, t) == []
    {
    }

    /** `switch_to_immutable`: the mutable cache is sorted and joins the immutable ones. */
    method SwitchToImmutable()
      requires Valid()
      modifies this, mutCache
      ensures Valid() && fresh(mutCache) && immutCache == old(immutCache) + [old(mutCache)] && deleted == old(deleted)
      ensures forall m :: m in Owned() ==> m in old(Owned()) || fresh(m)
      ensures deltaMutCache == old(deltaMutCache) && unchanged(deltaMutCache) && requests == old(requests) && New(mutCache)
      ensures immutTsMin == old(immutTsMin) && mutTsMax == old(mutTsMax) && maxLevelTs == old(maxLevelTs)
      ensures old(mutCache).immutable && forall f :: InOrder(old(mutCache).CellsOf(f))
      ensures forall delta: bool, f, t :: Total(delta, f, t) == old(Total(delta, f, t))
    {
      hide Flat, InOrder, Line, MemCache.Valid, MemCache.Between, MemCache.Count, MemCache.CellsOf, Marked, OfTimeIn;
      NotSent(mutCache);
      superVersion.mut.SwitchToImmutable();
      SortedIn(old(mutCache.data), mutCache.data);
      immutCache := immutCache + [mutCache];
      mutCache := new MemCache(maxMemcacheSize, seqNo, false);
      superVersionId := superVersionId + 1;
      superVersion := SuperVersion(deltaMutCache, mutCache, immutCache, superVersionId);
      EmptyBetween(mutCache);
      assert Marked();
      assert Late();
      assert Kinds();
      forall delta: bool, f, t ensures Total(delta, f, t) == old(Total(delta, f, t)) {
        LineSplits(old(immutCache), [old(mutCache)], delta, f, t);
        LineOne(old(mutCache), delta, f, t);
        EmptyPart(mutCache, delta, f, t);
        assert Line(old(immutCache), delta, f, t) == old(Line(immutCache, delta, f, t));
        assert Line(sent, delta, f, t) == old(Line(sent, delta, f, t));
        assert Part(deltaMutCache, delta, f, t) == old(Part(deltaMutCache, delta, f, t));
        Joined(Line(sent, delta, f, t), Line(old(immutCache), delta, f, t), Part(old(mutCache), delta, f, t),
               Part(deltaMutCache, delta, f, t), []);
      }
    }

    lemma NotSent(m: MemCache)
      requires Distinct() && m in Owned()
      ensures m !in sent
    {
    }

    method RouteMut(seqNo: nat, f: FieldId, c: Cell)
      requires Valid() && immutTsMin <= c.ts
      modifies this`mutTsMax, mutCache
      ensures Valid() && mutTsMax == (if c.ts > old(mutTsMax) then c.ts else old(mutTsMax))
      ensures mutCache.cacheSize == old(mutCache.cacheSize) + cellSize && unchanged(deltaMutCache)
      ensures forall delta: bool, g, t ::
        Total(delta, g, t) == old(Total(delta, g, t)) + Placed(!delta && g == f && t == c.ts, c)
    {
      hide Flat, Line, MemCache.Valid, MemCache.Between, MemCache.Count, Marked, OfTimeIn;
      NotSent(mutCache);
      if c.ts > mutTsMax {
        Later(mutCache, marks[|marks| - 1], mutTsMax, c.ts);
        forall m | m in immutCache ensures m.Between(marks[|marks| - 1], c.ts) {
          Later(m, marks[|marks| - 1], mutTsMax, c.ts);
        }
        mutTsMax := c.ts;
      }
      superVersion.mut.Insert(seqNo, f, c, cellSize);
      InsertedIn(old(mutCache.data), mutCache.data, f, c);
      assert Marked();
      assert Late();
      assert Kinds();
      forall delta: bool, g, t
        ensures Total(delta, g, t) == old(Total(delta, g, t)) + Placed(!delta && g == f && t == c.ts, c)
      {
        assert Line(sent, delta, g, t) == old(Line(sent, delta, g, t));
        assert Line(immutCache, delta, g, t) == old(Line(immutCache, delta, g, t));
        OtherPart(if delta then mutCache else deltaMutCache, delta, g, t);
        assert Part(deltaMutCache, delta, g, t) == old(Part(deltaMutCache, delta, g, t));
        Joined(Line(sent, delta, g, t), Line(immutCache, delta, g, t), old(Part(mutCache, delta, g, t)),
               Part(deltaMutCache, delta, g, t), Placed(!delta && g == f && t == c.ts, c));
      }
    }

    method RouteDelta(seqNo: nat, f: FieldId, c: Cell)
      requires Valid()
      modifies deltaMutCache
      ensures Valid() && unchanged(mutCache) && deltaMutCache.cacheSize == old(deltaMutCache.cacheSize) + cellSize
      ensures forall delta: bool, g, t ::
        Total(delta, g, t) == old(Total(delta, g, t)) + Placed(delta && g == f && t == c.ts, c)
    {
      hide Flat, Line, MemCache.Valid, MemCache.Between, MemCache.Count, Marked, OfTimeIn;
      NotSent(deltaMutCache);
      superVersion.delta.Insert(seqNo, f, c, cellSize);
      InsertedIn(old(deltaMutCache.data), deltaMutCache.data, f, c);
      assert Marked();
      assert Late();
      assert Kinds();
      forall delta: bool, g, t
        ensures Total(delta, g, t) == old(Total(delta, g, t)) + Placed(delta && g == f && t == c.ts, c)
      {
        assert Line(sent, delta, g, t) == old(Line(sent, delta, g, t));
        assert Line(immutCache, delta, g, t) == old(Line(immutCache, delta, g, t));
        assert Part(mutCache, delta, g, t) == old(Part(mutCache, delta, g, t));
        Joined(Line(sent, delta, g, t), Line(immutCache, delta, g, t), Part(mutCache, delta, g, t),
               old(Part(deltaMutCache, delta, g, t)), Placed(delta && g == f && t == c.ts, c));
      }
    }

    /** The immutable caches once a cache that is full has joined them: with enough of them, all leave in one request. */
    function StaysImmut(full: bool, immut: seq<MemCache>, m: MemCache): seq<MemCache> {
      if !full then immut else if |immut| + 1 >= maxImmutNum then [] else immut + [m]
    }

    function Leaves(full: bool, immut: seq<MemCache>, m: MemCache): seq<seq<MemCache>> {
      if full && |immut| + 1 >= maxImmutNum then [immut + [m]] else []
    }

    /** A full mutable cache becomes immutable, and enough immutable ones are sent; else nothing is done. */
    method SwitchIfFull()
      requires Valid()
      modifies this, mutCache
      ensures if old(mutCache.IsFull()) then fresh(mutCache) && New(mutCache)
              else mutCache == old(mutCache) && unchanged(mutCache)
      ensures immutCache == StaysImmut(old(mutCache.IsFull()), old(immutCache), old(mutCache))
      ensures requests == old(requests) + Leaves(old(mutCache.IsFull()), old(immutCache), old(mutCache))
      ensures immutTsMin == if immutCache == [] && old(mutCache.IsFull()) then mutTsMax else old(immutTsMin)
      ensures Valid() && old(requests) <= requests && deltaMutCache == old(deltaMutCache) && mutTsMax == old(mutTsMax)
      ensures deleted == old(deleted) && unchanged(deltaMutCache)
      ensures old(Rising()) ==> Rising() && old(immutTsMin) <= immutTsMin
      ensures forall m :: m in Owned() ==> m in old(Owned()) || fresh(m)
      ensures forall delta: bool, g, t :: Total(delta, g, t) == old(Total(delta, g, t))
      ensures maxMemcacheSize > 0 ==> !mutCache.IsFull()
      ensures |old(immutCache)| < maxImmutNum ==> |immutCache| < maxImmutNum
      ensures || immutTsMin == old(immutTsMin)
              || (immutTsMin == maxLevelTs == mutTsMax && immutCache == [] && mutCache.data == map[])
    {
      hide Flat, Line, Late, Marked, Kinds, Aliased, Distinct, Total, Owned;
      if mutCache.IsFull() {
        SwitchToImmutable();
        if |immutCache| >= maxImmutNum {
          Raise(mutTsMax);
          maxLevelTs := mutTsMax;
          WrapFlushReq();
        }
      }
    }

    /** The time from which on cells are not delta, once a cell of this time has come */
    function Watermark(ts: Timestamp): Timestamp
      reads this`immutTsMin
    {
      if immutTsMin == MIN_TS then ts else immutTsMin
    }

    /** What a cell that is put adds to the size of a cache */
    function Size(put: bool): nat {
      if put then cellSize else 0
    }

    /** A later cell sends the delta cells off, if there are any. */
    function DeltaLeaves(late: bool, data: map<FieldId, MemEntry>, m: MemCache): seq<seq<MemCache>> {
      if late && data != map[] then [[m]] else []
    }

    /** The cell goes to the cache that its time is for, and a later one sends the delta cells off. */
    method Route(seqNo: nat, f: FieldId, c: Cell)
      requires Valid()
      modifies this, mutCache, deltaMutCache
      ensures Valid() && old(requests) <= requests && deleted == old(deleted)
      ensures forall m :: m in Owned() ==> m in old(Owned()) || fresh(m)
      ensures mutCache == old(mutCache) && immutCache == old(immutCache) && immutTsMin == old(Watermark(c.ts))
      ensures mutCache.cacheSize == old(mutCache.cacheSize) + Size(c.ts >= old(Watermark(c.ts)))
      ensures requests == old(requests) + DeltaLeaves(c.ts >= old(Watermark(c.ts)), old(deltaMutCache.data), old(deltaMutCache))
      ensures if c.ts >= old(Watermark(c.ts)) && old(deltaMutCache.data) != map[]
              then fresh(deltaMutCache) && New(deltaMutCache)
              else deltaMutCache == old(deltaMutCache) &&
                   deltaMutCache.cacheSize == old(deltaMutCache.cacheSize) + Size(c.ts < old(Watermark(c.ts)))
      ensures forall delta: bool, g, t ::
        Total(delta, g, t) ==
        old(Total(delta, g, t)) + Placed(delta == (c.ts < old(Watermark(c.ts))) && g == f && t == c.ts, c)
      ensures mutTsMax == if c.ts >= old(Watermark(c.ts)) && c.ts > old(mutTsMax) then c.ts else old(mutTsMax)
      ensures c.ts >= old(Watermark(c.ts)) ==> deltaMutCache.data == map[]
      ensures old(Rising()) ==> Rising()
    {
      hide Flat, Line, Late, Marked, Kinds, Aliased, Distinct, Total, Owned;
      if immutTsMin == MIN_TS {
        Raise(c.ts);
      }
      if c.ts >= immutTsMin {
        RouteMut(seqNo, f, c);
      } else {
        RouteDelta(seqNo, f, c);
      }
      if c.ts >= immutTsMin && deltaMutCache.data != map[] {
        WrapDeltaFlushReq();
      }
    }

    /**
     * `put_mutcache`: the cell is added, to what is delta exactly if its time is before the watermark; a later one sends
     * the delta cells off; no cache stays full; and the watermark does not fall, if caches have room for a cell.
     */
    method PutMutcache(seqNo: nat, f: FieldId, c: Cell)
      requires Valid() && c.kind != Unknown
      modifies this, mutCache, deltaMutCache
      ensures Valid() && old(requests) <= requests && deleted == old(deleted)
      ensures forall m :: m in Owned() ==> m in old(Owned()) || fresh(m)
      ensures forall delta: bool, g, t ::
        var here := delta == (old(immutTsMin) != MIN_TS && c.ts < old(immutTsMin)) && g == f && t == c.ts;
        Total(delta, g, t) == old(Total(delta, g, t)) + Placed(here, c)
      ensures mutTsMax ==
              if (old(immutTsMin) == MIN_TS || c.ts >= old(immutTsMin)) && c.ts > old(mutTsMax) then c.ts else old(mutTsMax)
      ensures old(immutTsMin) == MIN_TS || c.ts >= old(immutTsMin) ==> deltaMutCache.data == map[]
      ensures maxMemcacheSize > 0 ==> !mutCache.IsFull() && !deltaMutCache.IsFull()
      ensures |old(immutCache)| < maxImmutNum ==> |immutCache| < maxImmutNum
      ensures || immutTsMin == (if old(immutTsMin) == MIN_TS then c.ts else old(immutTsMin))
              || (immutTsMin == maxLevelTs == mutTsMax && immutCache == [] && mutCache.data == map[])
      ensures old(Rising()) ==> Rising() && old(immutTsMin) <= immutTsMin
      ensures var late := old(immutTsMin) == MIN_TS || c.ts >= old(immutTsMin);
        var full := old(mutCache.cacheSize) + Size(late) >= old(mutCache.maxBufSize);
        var deltaFull := !(late && old(deltaMutCache.data) != map[]) &&
                         old(deltaMutCache.cacheSize) + Size(!late) >= old(deltaMutCache.maxBufSize);
        && immutCache == StaysImmut(full, old(immutCache), old(mutCache))
        && var left := DeltaLeaves(late, old(deltaMutCache.data), old(deltaMutCache)) +
                       Leaves(full, old(immutCache), old(mutCache)) + (if deltaFull then [[old(deltaMutCache)]] else []);
           maxMemcacheSize > 0 ==> requests == old(requests) + left
    {
      hide Flat, Line, Late, Marked, Kinds, Aliased, Distinct, Total, Owned;
      Route(seqNo, f, c);
      SwitchIfFull();
      if deltaMutCache.IsFull() {
        WrapDeltaFlushReq();
      }
    }

    /** The watermark only rises to times that nothing flushed is later than. */
    method Raise(ts: Timestamp)
      requires Valid() && (immutTsMin == MIN_TS || ts == mutTsMax)
      modifies this`immutTsMin
      ensures Valid() && immutTsMin == ts
    {
      hide Flat, Line, Marked, Kinds, Aliased, Distinct, MemCache.Between;
      immutTsMin := ts;
    }

    static lemma Later(m: MemCache, lo: int, hi: int, later: int)
      requires m.Between(lo, hi) && hi <= later
      ensures m.Between(lo, later)
    {
    }

    ghost function Datas(): (r: seq<map<FieldId, MemEntry>>)
      reads this, immutCache
      ensures |r| == |immutCache| && forall k :: 0 <= k < |r| ==> r[k] == immutCache[k].data
    {
      seq(|immutCache|, k requires 0 <= k < |immutCache| reads this, immutCache => immutCache[k].data)
    }

    method DeleteImmut(r: TimeRange)
      requires Kinds() && Distinct() && Late() && Marked()
      modifies immutCache
      ensures Late() && Marked()
      ensures forall delta: bool, g, t :: InRequests(delta, g, t) == old(InRequests(delta, g, t))
      ensures forall m :: m in immutCache ==> m.Valid()
      ensures forall delta: bool, g, t ::
        Line(immutCache, delta, g, t) == if Inside(t, r) then [] else old(Line(immutCache, delta, g, t))
    {
      hide Flat, Line, MemCache.Valid, MemCache.Between, LineIn, Owned, Marked, Retain, OfTimeIn;
      SentApart();
      ghost var was := Datas();
      forall delta: bool, g, t ensures Line(immutCache, delta, g, t) == if delta then [] else LineIn(was, g, t) {
        LineIs(immutCache, was, delta, g, t);
      }
      for i := 0 to |immutCache|
        invariant forall m :: m in immutCache ==> m.Valid()
        invariant Late() && Marked()
        invariant forall delta: bool, g, t :: InRequests(delta, g, t) == old(InRequests(delta, g, t))
        invariant forall k, g, t :: 0 <= k < i ==>
          OfTimeIn(immutCache[k].data, g, t) == if Inside(t, r) then [] else OfTimeIn(was[k], g, t)
        invariant forall k :: i <= k < |immutCache| ==> immutCache[k].data == was[k]
      {
        assert immutCache[i] !in sent;
        label before:
        immutCache[i].Delete(r);
        forall delta: bool, g, t ensures InRequests(delta, g, t) == old@before(InRequests(delta, g, t)) { }
        DeletedIn(was[i], immutCache[i].data, r);
      }
      ghost var now := Datas();
      forall delta: bool, g, t
        ensures Line(immutCache, delta, g, t) == if Inside(t, r) then [] else old(Line(immutCache, delta, g, t))
      {
        LineIs(immutCache, now, delta, g, t);
        LineDeleted(was, now, r, g, t);
      }
    }

    ghost method NoteDeleted(r: TimeRange)
      modifies this`deleted
      ensures forall g, d :: deleted(g, d) == old(deleted)(g, d) + if InRange(d, r) then old(Cached(g, d)) else 0
    {
      deleted := (g, d) => old(deleted)(g, d) + if InRange(d, r) then old(Cached(g, d)) else 0;
    }

    /** `delete_cache`: exactly the cells in the range go from the caches, and nothing from the requests. */
    method DeleteCache(r: TimeRange)
      requires Valid()
      modifies mutCache, deltaMutCache, immutCache, this`deleted
      ensures Valid()
      ensures mutCache == old(mutCache) && deltaMutCache == old(deltaMutCache) && immutCache == old(immutCache)
      ensures requests == old(requests)
      ensures forall delta: bool, g, t :: InCaches(delta, g, t) == if Inside(t, r) then [] else old(InCaches(delta, g, t))
      ensures forall delta: bool, g, t :: InRequests(delta, g, t) == old(InRequests(delta, g, t))
      ensures forall g, d :: deleted(g, d) == old(deleted)(g, d) + if InRange(d, r) then old(Cached(g, d)) else 0
      ensures old(Rising()) ==> Rising()
    {
      hide Flat, Line, MemCache.Valid, MemCache.Between, MemCache.Count, Marked, Aliased, OfTimeIn;
      NoteDeleted(r);
      SentApart();
      mutCache.Delete(r);
      assert Late() && Marked();
      deltaMutCache.Delete(r);
      DeletedIn(old(mutCache.data), mutCache.data, r);
      DeletedIn(old(deltaMutCache.data), deltaMutCache.data, r);
      assert Late() && Kinds() && Marked();
      forall delta: bool, g, t
        ensures Line(immutCache, delta, g, t) == old(Line(immutCache, delta, g, t))
        ensures InRequests(delta, g, t) == old(InRequests(delta, g, t))
        ensures Part(mutCache, delta, g, t) == if Inside(t, r) then [] else old(Part(mutCache, delta, g, t))
        ensures Part(deltaMutCache, delta, g, t) == if Inside(t, r) then [] else old(Part(deltaMutCache, delta, g, t))
      {
      }
      DeleteImmut(r);
      assert Kinds();
    }

    lemma SentApart()
      requires Distinct()
      ensures forall m :: m in sent ==> m != mutCache && m != deltaMutCache && m !in immutCache
    {
      forall m | m in sent ensures m != mutCache && m != deltaMutCache && m !in immutCache { assert m !in Owned(); }
    }

    /**
     * Any run of puts and deletions: what is in a cache or a request, with what deletions have taken from the caches, is
     * what was there and what was put since. Cells of one time are in the order they were put, from the first request to
     * the caches and the delta cells last, if caches have room for a cell and no deletion is of that time.
     */
    method Run(ops: seq<Op>)
      requires Valid() && forall i :: 0 <= i < |ops| && ops[i].Put? ==> ops[i].c.kind != Unknown
      modifies this, Owned()
      ensures Valid() && old(requests) <= requests
      ensures forall f, c :: Everywhere(f, c) + deleted(f, c) == old(Everywhere(f, c) + deleted(f, c)) + Puts(ops, f, c)
      ensures forall f, c: Cell :: Spared(ops, c.ts) ==> deleted(f, c) == old(deleted(f, c))
      ensures old(Rising()) ==> Rising() && old(immutTsMin) <= immutTsMin
      ensures old(Rising() && DeltaEarly()) ==> DeltaEarly()
      ensures old(Rising() && DeltaEarly()) ==>
        forall f, t :: Spared(ops, t) ==> Timeline(f, t) == old(Timeline(f, t)) + PutsOf(ops, f, t)
    {
      hide Flat, Line, Late, Marked, Kinds, Aliased, Distinct, Everywhere, Timeline, DeltaEarly, Puts, PutsOf, Owned;
      hide Spared, InLine, Balanced, Undeleted;
      ghost var was := (f: FieldId, t: Timestamp) => old(Timeline(f, t));
      ghost var start := (f: FieldId, c: Cell) => old(Everywhere(f, c) + deleted(f, c));
      ghost var taken := deleted;
      FromNothing(was, start);
      for i := 0 to |ops|
        invariant Valid() && old(requests) <= requests
        invariant forall m :: m in Owned() ==> m in old(Owned()) || fresh(m)
        invariant Balanced(start, ops[..i]) && Undeleted(taken, ops[..i])
        invariant old(Rising()) ==> Rising() && old(immutTsMin) <= immutTsMin
        invariant old(Rising() && DeltaEarly()) ==> DeltaEarly() && InLine(was, ops[..i])
      {
        assert ops[..i + 1] == ops[..i] + [ops[i]];
        RunOne(was, start, taken, old(Rising() && DeltaEarly()), ops[..i], ops[i]);
      }
      assert ops[..|ops|] == ops;
      InLineIs(was, ops);
      BalancedIs(start, taken, ops);
    }

    /** One operation more */
    method RunOne(ghost was: (FieldId, Timestamp) -> seq<Cell>, ghost start: (FieldId, Cell) -> nat,
                  ghost taken: (FieldId, Cell) -> nat, ghost rising: bool, ghost ops: seq<Op>, op: Op)
      requires Valid() && (op.Put? ==> op.c.kind != Unknown) && Balanced(start, ops) && Undeleted(taken, ops)
      requires rising ==> Rising() && DeltaEarly() && InLine(was, ops)
      modifies this, Owned()
      ensures Valid() && old(requests) <= requests
      ensures forall m :: m in Owned() ==> m in old(Owned()) || fresh(m)
      ensures Balanced(start, ops + [op]) && Undeleted(taken, ops + [op])
      ensures old(Rising()) ==> Rising() && old(immutTsMin) <= immutTsMin
      ensures rising ==> DeltaEarly() && InLine(was, ops + [op])
    {
      hide Flat, Line, Late, Marked, Kinds, Aliased, Distinct, Everywhere, Timeline, DeltaEarly, Puts, PutsOf, Owned, Spared;
      ghost var mid := (f: FieldId, t: Timestamp) => old(Timeline(f, t));
      ghost var all := (f: FieldId, c: Cell) => old(Everywhere(f, c) + deleted(f, c));
      Apply(op);
      BalancedMore(start, all, ops, op);
      UndeletedMore(taken, old(deleted), ops, op);
      if rising {
        InLineMore(was, mid, ops, op);
      }
    }

    lemma FromNothing(was: (FieldId, Timestamp) -> seq<Cell>, start: (FieldId, Cell) -> nat)
      requires forall f, t :: was(f, t) == Timeline(f, t)
      requires forall f, c :: start(f, c) == Everywhere(f, c) + deleted(f, c)
      ensures InLine(was, []) && Balanced(start, []) && Undeleted(deleted, [])
    {
      hide Timeline, Everywhere;
    }

    /** How often a cell is anywhere, or was deleted, is how often it was before and was put since. */
    ghost predicate Balanced(start: (FieldId, Cell) -> nat, ops: seq<Op>)
      reads this`mutCache, this`deltaMutCache, this`immutCache, this`sent, mutCache, deltaMutCache, immutCache, sent
      reads this`deleted
    {
      forall f, c :: Everywhere(f, c) + deleted(f, c) == start(f, c) + Puts(ops, f, c)
    }

    lemma BalancedMore(start: (FieldId, Cell) -> nat, mid: (FieldId, Cell) -> nat, ops: seq<Op>, op: Op)
      requires forall f, c :: mid(f, c) == start(f, c) + Puts(ops, f, c)
      requires forall f, c :: Everywhere(f, c) + deleted(f, c) == mid(f, c) + Added(op.Put? && op.f == f && op.c == c)
      ensures Balanced(start, ops + [op])
    {
      hide Everywhere, Puts;
      forall f, c ensures Everywhere(f, c) + deleted(f, c) == start(f, c) + Puts(ops + [op], f, c) {
        PutsMore(ops, op, f, c);
      }
    }

    /** Nothing of a time that no deletion is of was taken. */
    ghost predicate Undeleted(taken: (FieldId, Cell) -> nat, ops: seq<Op>)
      reads this`deleted
    {
      forall f, c: Cell :: Spared(ops, c.ts) ==> deleted(f, c) == taken(f, c)
    }

    lemma UndeletedMore(taken: (FieldId, Cell) -> nat, mid: (FieldId, Cell) -> nat, ops: seq<Op>, op: Op)
      requires forall f, c: Cell :: Spared(ops, c.ts) ==> mid(f, c) == taken(f, c)
      requires forall f, c :: (op.Delete? ==> !InRange(c, op.r)) ==> deleted(f, c) == mid(f, c)
      ensures Undeleted(taken, ops + [op])
    {
      hide Spared;
      forall f, c: Cell | Spared(ops + [op], c.ts) ensures deleted(f, c) == taken(f, c) { SparedMore(ops, op, c.ts); }
    }

    lemma BalancedIs(start: (FieldId, Cell) -> nat, taken: (FieldId, Cell) -> nat, ops: seq<Op>)
      requires Balanced(start, ops) && Undeleted(taken, ops)
      ensures forall f, c :: Everywhere(f, c) + deleted(f, c) == start(f, c) + Puts(ops, f, c)
      ensures forall f, c: Cell :: Spared(ops, c.ts) ==> deleted(f, c) == taken(f, c)
    {
    }

    /** The cells of a time are those that were there and those put since, if no deletion is of that time. */
    ghost predicate InLine(was: (FieldId, Timestamp) -> seq<Cell>, ops: seq<Op>)
      reads this`mutCache, this`deltaMutCache, this`immutCache, this`sent, mutCache, deltaMutCache, immutCache, sent
    {
      forall f, t :: Spared(ops, t) ==> Timeline(f, t) == was(f, t) + PutsOf(ops, f, t)
    }

    lemma InLineIs(was: (FieldId, Timestamp) -> seq<Cell>, ops: seq<Op>)
      ensures InLine(was, ops) ==> forall f, t :: Spared(ops, t) ==> Timeline(f, t) == was(f, t) + PutsOf(ops, f, t)
    {
    }

    lemma InLineMore(was: (FieldId, Timestamp) -> seq<Cell>, mid: (FieldId, Timestamp) -> seq<Cell>, ops: seq<Op>, op: Op)
      requires forall f, t :: Spared(ops, t) ==> mid(f, t) == was(f, t) + PutsOf(ops, f, t)
      requires forall f, t :: (op.Delete? ==> !Inside(t, op.r)) ==> Timeline(f, t) == mid(f, t) + PutBy(op, f, t)
      ensures InLine(was, ops + [op])
    {
      hide Timeline, Spared, PutsOf, PutBy;
      forall f, t | Spared(ops + [op], t) ensures Timeline(f, t) == was(f, t) + PutsOf(ops + [op], f, t) {
        SparedMore(ops, op, t);
        PutsOfMore(ops, op, f, t);
      }
    }

    static lemma SparedMore(ops: seq<Op>, op: Op, t: Timestamp)
      ensures Spared(ops + [op], t) <==> Spared(ops, t) && (op.Delete? ==> !Inside(t, op.r))
    {
      var all := ops + [op];
      assert all[|ops|] == op;
      assert forall i :: 0 <= i < |ops| ==> all[i] == ops[i];
    }

    method Apply(op: Op)
      requires Valid() && (op.Put? ==> op.c.kind != Unknown)
      modifies this, Owned()
      ensures Valid() && old(requests) <= requests
      ensures forall m :: m in Owned() ==> m in old(Owned()) || fresh(m)
      ensures forall f, c ::
        deleted(f, c) == old(deleted)(f, c) + if op.Delete? && InRange(c, op.r) then old(Cached(f, c)) else 0
      ensures forall f, c ::
        Everywhere(f, c) + deleted(f, c) ==
        old(Everywhere(f, c) + deleted(f, c)) + Added(op.Put? && op.f == f && op.c == c)
      ensures old(Rising()) ==> Rising() && old(immutTsMin) <= immutTsMin
      ensures old(Rising() && DeltaEarly()) ==> DeltaEarly()
      ensures old(Rising() && DeltaEarly()) ==>
        forall f, t :: (op.Delete? ==> !Inside(t, op.r)) ==> Timeline(f, t) == old(Timeline(f, t)) + PutBy(op, f, t)
    {
      hide Flat, Line, Late, Marked, Kinds, Aliased, Distinct, Total, InCaches, InRequests, Cached, Times;
      match op
      case Put(seqNo, f, c) =>
        ghost var early := c.ts < Watermark(c.ts);
        PutMutcache(seqNo, f, c);
        forall g, d ensures Everywhere(g, d) == old(Everywhere(g, d)) + Added(g == f && d == c) {
          Longer(old(Total(false, g, d.ts)), old(Total(true, g, d.ts)), g == f && d.ts == c.ts, c, d);
        }
        forall g, t | early || old(Total(true, f, c.ts)) == []
          ensures Timeline(g, t) == old(Timeline(g, t)) + PutBy(op, g, t)
        {
          Longer(old(Total(false, g, t)), old(Total(true, g, t)), g == f && t == c.ts, c, c);
        }
      case Delete(r) =>
        DeleteCache(r);
        Shrunk(r);
    }

    /** One cell more or none, at the end of one part or the other */
    static lemma Longer(a: seq<Cell>, b: seq<Cell>, one: bool, c: Cell, d: Cell)
      ensures var x := Placed(one, c);
        && Times(a + x + b, d) == Times(a + (b + x), d) == Times(a + b, d) + Added(one && d == c)
        && a + (b + x) == a + b + x && (b == [] ==> a + x + b == a + b + x)
      ensures b + Placed(false, c) == b && a + Placed(false, c) == a
    {
    }

    /** The cells of some times are gone from the caches. */
    twostate lemma Shrunk(r: TimeRange)
      requires forall delta: bool, g, t :: InCaches(delta, g, t) == if Inside(t, r) then [] else old(InCaches(delta, g, t))
      requires forall delta: bool, g, t :: InRequests(delta, g, t) == old(InRequests(delta, g, t))
      ensures forall g, d :: Everywhere(g, d) + (if InRange(d, r) then old(Cached(g, d)) else 0) == old(Everywhere(g, d))
      ensures forall g, t :: !Inside(t, r) ==> Timeline(g, t) == old(Timeline(g, t))
      ensures forall g, t :: Total(true, g, t) != [] ==> old(Total(true, g, t)) != []
    {
      hide InCaches, InRequests;
    }

    /** In every run, deltas aside, a cell in a later flush request is no earlier than one in an earlier request. */
    lemma {:induction false} FlushesInOrder(i: nat, j: nat, a: MemCache, b: MemCache, f: FieldId, g: FieldId, c: Cell, d: Cell)
      requires Valid() && i < j < |requests| && a in requests[i] && b in requests[j] && !a.isDelta && !b.isDelta
      requires c in a.CellsOf(f) && d in b.CellsOf(g)
      ensures c.ts <= d.ts
    {
      FlatHas(requests, i, a);
      FlatHas(requests, j, b);
      assert SlotAt(requests, sent, marks, i) && SlotAt(requests, sent, marks, j);
      assert a.Between(marks[i], marks[i + 1]) && b.Between(marks[j], marks[j + 1]);
      MarksRise(i + 1, j);
    }

    lemma {:induction false} MarksRise(i: nat, j: nat)
      requires Marked() && i <= j <= |requests|
      ensures marks[i] <= marks[j]
      decreases j
    {
      hide MemCache.Between;
      if i < j {
        MarksRise(i, j - 1);
        assert SlotAt(requests, sent, marks, j - 1);
      }
    }
  }
}
