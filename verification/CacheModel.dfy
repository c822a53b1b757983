/** The page cache as a value: the clock, the buffers of the resident pages and the store
    behind them. Reads, writes and flushes are shown to be those of a plain map. */
module CacheModel {
  import opened ClockModel
  import opened ClockHands

  type Bytes = seq<int>

  datatype Buf = Buf(bytes: Bytes, dirty: bool)

  datatype Options = Options(maxResident: nat, maxNonResident: nat)

  /** The pages of the files behind the cache, and which of them were written since their file was last cut to its length */
  datatype Store = Store(pages: map<Key, Bytes>, written: set<Key>)

  datatype Cache = Cache(clock: Clock, data: map<Key, Buf>, store: Store)

  // -------------------------------------------------------- a fault on the clock

  /** Between two operations: counted, bounded, and no page in use */
  ghost predicate Idle(c: Clock, o: Options) {
    && Ok(c)
    && c.nHot + c.nCold <= o.maxResident
    && c.nGhost <= o.maxNonResident
    && Busy(c.ring) == {}
  }

  /** A clock with the End page only */
  function Empty(): Clock {
    Clock([Entry(Key(0, 0), End, false, false, true)], 0, 0, 0, 0, 0, 0)
  }

  lemma EmptyIdle(o: Options)
    ensures Idle(Empty(), o) && Residents(Empty().ring) == {} && Keys(Empty().ring) == {}
  {
    var e := Entry(Key(0, 0), End, false, false, true);
    CountOne(e, HotPage);
    CountOne(e, ResidentCold);
    CountOne(e, NonResident);
  }

  /** `page.status = ProtectedTest` for a page of the clock without a buffer */
  function Protect(c: Clock, key: Key): (r: Clock)
    requires Ok(c) && key in Keys(c.ring)
  {
    var i := IndexOf(c.ring, key);
    Put(c, i, c.ring[i].(status := ProtectedTest))
  }

  lemma EntryOf(c: Clock, e: Entry)
    requires Shape(c) && e in c.ring && e.status != End
    ensures e.key in Keys(c.ring) && c.ring[IndexOf(c.ring, e.key)] == e
    ensures e.resident <==> e.key in Residents(c.ring)
  {
    var j :| 0 <= j < |c.ring| && c.ring[j] == e;
    assert c.ring[j].key in Keys(c.ring);
    var i := IndexOf(c.ring, e.key);
    assert i == j;
    if e.key in Residents(c.ring) {
      var k :| 0 <= k < |c.ring| && c.ring[k].resident && c.ring[k].key == e.key;
      assert k == j;
    }
  }

  lemma EntryAt(c: Clock, key: Key)
    requires Shape(c) && key in Keys(c.ring)
    ensures var e := c.ring[IndexOf(c.ring, key)];
            e in c.ring && e.status != End && e.key == key && (e.resident <==> key in Residents(c.ring))
  {
    EntryOf(c, c.ring[IndexOf(c.ring, key)]);
  }

  lemma ProtectOk(c: Clock, key: Key)
    requires Ok(c) && key in Keys(c.ring) && key !in Residents(c.ring)
    ensures var r := Protect(c, key); var i := IndexOf(c.ring, key);
      && Ok(r) && Residents(r.ring) == Residents(c.ring) && Keys(r.ring) == Keys(c.ring)
      && r.nHot == c.nHot && r.nCold == c.nCold && r.nGhost == c.nGhost && |r.ring| == |c.ring|
      && r.ring[i] in r.ring && r.ring[i].status == ProtectedTest && r.ring[i].key == key
      && Busy(r.ring) <= Busy(c.ring) + {key}
  {
    hide Count, Keys, Residents, IndexOf;
    EntryAt(c, key);
    var i := IndexOf(c.ring, key);
    var e := c.ring[i].(status := ProtectedTest);
    PutOk(c, i, e);
    var r := Protect(c, key).ring;
    forall j | 0 <= j < |r| && InUse(r[j]) ensures r[j].key in Busy(c.ring) + {key} {
      assert j != i ==> r[j] == c.ring[j];
    }
  }

  /** No resident page is in use, so a victim can be found. */
  lemma FreeToReclaim(c: Clock)
    requires Ok(c) && Busy(c.ring) !! Residents(c.ring) && c.nHot + c.nCold > 0
    ensures Reclaimable(c.ring)
  {
    forall i | 0 <= i < |c.ring| && c.ring[i].resident ensures !c.ring[i].locked {
      assert c.ring[i].key in Residents(c.ring);
      assert c.ring[i].key !in Busy(c.ring);
      assert !InUse(c.ring[i]);
    }
    CountPositive(c.ring, HotPage);
    CountPositive(c.ring, ResidentCold);
    CountPositive(c.ring, LockedCold);
    if c.nCold > 0 { AllFree(c); }
  }

  /** `replace_page_data`: a page found in its test period comes back as a hot page. */
  function Replace(c: Clock, key: Key): (r: Clock)
    requires Ok(c) && key in Keys(c.ring)
    requires c.ring[IndexOf(c.ring, key)].status == ProtectedTest
  {
    var i := IndexOf(c.ring, key);
    var c1 := RemoveAt(c, i).(nGhost := c.nGhost - 1);
    DetachOk(c, i);
    var c2 := RunHandHot(c1, false);
    Append(c2, c.ring[i].(status := Hot, resident := true)).(nHot := c2.nHot + 1)
  }

  lemma DetachOk(c: Clock, i: nat)
    requires Ok(c) && i < |c.ring| - 1 && !c.ring[i].resident
    ensures var r := RemoveAt(c, i).(nGhost := c.nGhost - 1);
      && Ok(r) && Residents(r.ring) == Residents(c.ring) && Keys(r.ring) == Keys(c.ring) - {c.ring[i].key}
      && Busy(r.ring) <= Busy(c.ring) && r.nHot == c.nHot && r.nCold == c.nCold
  {
    hide Count, Keys, Residents, Busy;
    RemoveOk(c, i);
    RemoveShape(c, i);
    RemoveBusy(c, i);
  }

  /** Adding a resident page that nobody has yet */
  lemma AttachOk(c: Clock, e: Entry, r: Clock)
    requires Ok(c) && e.key !in Keys(c.ring) && e.resident && (e.status == Hot || e.status == Test)
    requires r == Append(c, e).(nHot := c.nHot + Bit(e, HotPage), nCold := c.nCold + Bit(e, ResidentCold))
    ensures Ok(r) && Residents(r.ring) == Residents(c.ring) + {e.key} && Keys(r.ring) == Keys(c.ring) + {e.key}
    ensures Busy(r.ring) <= Busy(c.ring) + {e.key}
    ensures r.nHot + r.nCold == c.nHot + c.nCold + 1 && r.nGhost == c.nGhost
  {
    hide Count, Keys, Residents;
    AppendOk(c, e);
    AppendShape(c, e);
    var n, s := |c.ring|, Append(c, e).ring;
    hide Append;
    forall j | 0 <= j < |s| && InUse(s[j]) ensures s[j].key in Busy(c.ring) + {e.key} {
      if j != n - 1 {
        assert s[j] == c.ring[if j < n - 1 then j else n - 1];
      }
    }
  }

  lemma AppendCounts(c: Clock, e: Entry)
    requires |c.ring| > 0
    ensures Append(c, e).nHot == c.nHot && Append(c, e).nCold == c.nCold
  {
  }

  lemma ReplaceOk(c: Clock, key: Key)
    requires Ok(c) && key in Keys(c.ring) && key !in Residents(c.ring)
    requires c.ring[IndexOf(c.ring, key)].status == ProtectedTest
    ensures var r := Replace(c, key);
      && Ok(r) && Residents(r.ring) == Residents(c.ring) + {key} && Keys(r.ring) <= Keys(c.ring)
      && Busy(r.ring) <= Busy(c.ring) + {key}
      && r.nHot + r.nCold == c.nHot + c.nCold + 1 && r.nGhost <= c.nGhost
  {
    hide Count, Keys, Residents, Busy, Ok, RunHandHot, RemoveAt, Append, IndexOf, Unlocked, KeepsProtected;
    ShapeOf(c);
    EntryAt(c, key);
    var i := IndexOf(c.ring, key);
    var e := c.ring[i].(status := Hot, resident := true);
    DetachOk(c, i);
    var c1 := RemoveAt(c, i).(nGhost := c.nGhost - 1);
    var c2 := RunHandHot(c1, false);
    ShapeOf(c2);
    AppendCounts(c2, e);
    AttachOk(c2, e, Replace(c, key));
  }

  lemma ShapeOf(c: Clock)
    requires Ok(c)
    ensures Shape(c)
  {
  }

  /** `add_page_data`: a page not in the clock is a cold page in its test period. */
  function Admit(c: Clock, key: Key): (r: Clock)
    requires |c.ring| > 0
  {
    Append(c, Entry(key, Test, true, false, true)).(nCold := c.nCold + 1)
  }

  /** The last share of a page is dropped. */
  function Unlock(c: Clock, key: Key): (r: Clock)
    requires Ok(c) && key in Keys(c.ring)
  {
    var i := IndexOf(c.ring, key);
    Put(c, i, c.ring[i].(locked := false))
  }

  lemma UnlockOk(c: Clock, key: Key)
    requires Ok(c) && key in Residents(c.ring) && key in Keys(c.ring)
    ensures var r := Unlock(c, key);
      && Ok(r) && Residents(r.ring) == Residents(c.ring) && Keys(r.ring) == Keys(c.ring)
      && Busy(r.ring) <= Busy(c.ring) - {key} && r.nHot == c.nHot && r.nCold == c.nCold && r.nGhost == c.nGhost
  {
    hide Count, Keys, Residents, IndexOf;
    EntryAt(c, key);
    var i := IndexOf(c.ring, key);
    var e := c.ring[i].(locked := false);
    PutOk(c, i, e);
    var r := Unlock(c, key).ring;
    forall j | 0 <= j < |r| && InUse(r[j]) ensures r[j].key in Busy(c.ring) && r[j].key != key {
      assert j != i && r[j] == c.ring[j];
    }
  }

  /** Room for one more resident page: `acquire_page_data` with no I/O going on */
  function MakeRoom(c: Clock, o: Options): (r: (Clock, Option<Key>))
    requires Ok(c) && (c.nHot + c.nCold >= o.maxResident ==> Reclaimable(c.ring))
  {
    if c.nHot + c.nCold < o.maxResident then (c, None)
    else
      var (c1, donor) := RunHandCold(c, o.maxNonResident);
      (c1, Some(donor))
  }

  /** A miss on `key`: the clock once the page has a buffer, and who gave it up */
  function Place(c: Clock, key: Key, o: Options): (r: (Clock, Option<Key>))
    requires Idle(c, o) && key !in Residents(c.ring) && o.maxResident > 0
    ensures Faulted(c, r.0, key, r.1, o)
  {
    FaultOk(c, key, o);
    if key in Keys(c.ring) then
      var (c2, donor) := MakeRoom(Protect(c, key), o);
      (Replace(c2, key), donor)
    else
      var (c2, donor) := MakeRoom(c, o);
      (Admit(c2, key), donor)
  }

  /** A miss on `key`, up to the share of the page being dropped */
  function Fault(c: Clock, key: Key, o: Options): (r: (Clock, Option<Key>))
    requires Idle(c, o) && key !in Residents(c.ring) && o.maxResident > 0
    ensures Idle(r.0, o)
    ensures r.1.Some? ==> r.1.value in Residents(c.ring)
    ensures Residents(r.0.ring) == Residents(c.ring) - (if r.1.Some? then {r.1.value} else {}) + {key}
  {
    var (c1, donor) := Place(c, key, o);
    (Unlock(c1, key), donor)
  }

  /** What making room does to a clock in which only `key` may be in use */
  lemma MakeRoomOk(c: Clock, key: Key, o: Options)
    requires Ok(c) && Busy(c.ring) <= {key} && key !in Residents(c.ring) && o.maxResident > 0
    requires c.nHot + c.nCold <= o.maxResident && c.nGhost <= o.maxNonResident
    ensures c.nHot + c.nCold >= o.maxResident ==> Reclaimable(c.ring)
    ensures var (r, donor) := MakeRoom(c, o);
      && Ok(r) && r.nHot + r.nCold < o.maxResident && r.nGhost <= o.maxNonResident
      && Busy(r.ring) <= {key} && Keys(r.ring) <= Keys(c.ring) && KeepsProtected(c.ring, r.ring)
      && (donor.Some? ==> donor.value in Residents(c.ring))
      && Residents(r.ring) == Residents(c.ring) - if donor.Some? then {donor.value} else {}
  {
    hide Count, Keys, Residents, Busy, Reclaimable, RunHandCold;
    if c.nHot + c.nCold >= o.maxResident {
      FreeToReclaim(c);
    }
  }

  lemma FaultOk(c: Clock, key: Key, o: Options)
    requires Idle(c, o) && key !in Residents(c.ring) && o.maxResident > 0
    ensures if key in Keys(c.ring) then
        var p := Protect(c, key);
        && Ok(p) && (p.nHot + p.nCold >= o.maxResident ==> Reclaimable(p.ring))
        && var (c2, donor) := MakeRoom(p, o);
           && Ok(c2) && key in Keys(c2.ring) && c2.ring[IndexOf(c2.ring, key)].status == ProtectedTest
           && Faulted(c, Replace(c2, key), key, donor, o)
      else
        && (c.nHot + c.nCold >= o.maxResident ==> Reclaimable(c.ring))
        && var (c2, donor) := MakeRoom(c, o);
           && |c2.ring| > 0 && Faulted(c, Admit(c2, key), key, donor, o)
  {
    hide Count, Keys, Residents, Busy, Reclaimable, KeepsProtected, MakeRoom, Protect, Replace, IndexOf, Append;
    if key in Keys(c.ring) {
      ProtectOk(c, key);
      var p := Protect(c, key);
      MakeRoomOk(p, key, o);
      var c2 := MakeRoom(p, o).0;
      var e := p.ring[IndexOf(c.ring, key)];
      assert e in c2.ring by { Kept(p.ring, c2.ring, e); }
      EntryOf(c2, e);
      ReplaceOk(c2, key);
      Faulty(c, Replace(c2, key), key, MakeRoom(p, o).1, o);
    } else {
      MakeRoomOk(c, key, o);
      var c2 := MakeRoom(c, o).0;
      AppendCounts(c2, Entry(key, Test, true, false, true));
      AttachOk(c2, Entry(key, Test, true, false, true), Admit(c2, key));
      Faulty(c, Admit(c2, key), key, MakeRoom(c, o).1, o);
    }
  }

  lemma Kept(a: seq<Entry>, b: seq<Entry>, e: Entry)
    requires KeepsProtected(a, b) && e in a && e.status == ProtectedTest
    ensures e in b
  {
  }

  /** The page is in, the donor is out, and only unlocking the page is left */
  ghost predicate Faulted(c: Clock, r: Clock, key: Key, donor: Option<Key>, o: Options) {
    && Ok(r) && key in Keys(r.ring)
    && Idle(Unlock(r, key), o)
    && (donor.Some? ==> donor.value in Residents(c.ring))
    && Residents(Unlock(r, key).ring) == Residents(c.ring) - (if donor.Some? then {donor.value} else {}) + {key}
  }

  lemma Faulty(c: Clock, r: Clock, key: Key, donor: Option<Key>, o: Options)
    requires Ok(r) && r.nHot + r.nCold <= o.maxResident && r.nGhost <= o.maxNonResident
    requires Busy(r.ring) <= {key} && (donor.Some? ==> donor.value in Residents(c.ring))
    requires Residents(r.ring) == Residents(c.ring) - (if donor.Some? then {donor.value} else {}) + {key}
    ensures Faulted(c, r, key, donor, o)
  {
    hide Count, Keys, Residents, Busy, Unlock;
    ResidentKey(r, key);
    UnlockOk(r, key);
  }

  // ------------------------------------------------------------------ operations

  /** A page the store never got reads as an empty one. */
  function Stored(store: Store, key: Key): Bytes {
    if key in store.pages then store.pages[key] else []
  }

  /** `Scope::write` */
  function Save(store: Store, key: Key, bytes: Bytes): Store {
    Store(store.pages[key := bytes], store.written + {key})
  }

  /** What a reader of the page is given, wherever it is */
  function Content(s: Cache, key: Key): Bytes {
    if key in s.data then s.data[key].bytes else Stored(s.store, key)
  }

  /** Buffers are where the clock says they are, and a clean one agrees with the store */
  ghost predicate Good(s: Cache, o: Options) {
    && o.maxResident > 0
    && Idle(s.clock, o)
    && s.data.Keys == Residents(s.clock.ring)
    && forall k :: k in s.data && !s.data[k].dirty ==> s.data[k].bytes == Stored(s.store, k)
  }

  /** A hit: `mark_refd` */
  function Touch(c: Clock, key: Key): (r: Clock)
    requires Ok(c) && key in Keys(c.ring)
  {
    var i := IndexOf(c.ring, key);
    Put(c, i, c.ring[i].(refd := true))
  }

  lemma TouchIdle(c: Clock, key: Key, o: Options)
    requires Idle(c, o) && key in Residents(c.ring)
    ensures key in Keys(c.ring)
    ensures Idle(Touch(c, key), o) && Residents(Touch(c, key).ring) == Residents(c.ring)
  {
    hide Count, Keys, Residents, Busy, IndexOf;
    ResidentKey(c, key);
    EntryAt(c, key);
    var i := IndexOf(c.ring, key);
    PutOk(c, i, c.ring[i].(refd := true));
    PutBusy(c, i, c.ring[i].(refd := true));
  }

  /** `Cache::write`: a dirty buffer goes to its page in the store. */
  function WriteBack(store: Store, key: Key, b: Buf): Store {
    if b.dirty then Save(store, key, b.bytes) else store
  }

  /** A miss: the donor's buffer is written back, then filled with the page. */
  function Refill(s: Cache, key: Key, c: Clock, donor: Option<Key>): (r: Cache)
    requires donor.Some? ==> donor.value in s.data
  {
    var store := if donor.None? then s.store else WriteBack(s.store, donor.value, s.data[donor.value]);
    var left := s.data - (if donor.None? then {} else {donor.value});
    Cache(c, left[key := Buf(Stored(store, key), false)], store)
  }

  lemma RefillGood(s: Cache, key: Key, c: Clock, donor: Option<Key>, o: Options)
    requires Good(s, o) && key !in s.data && (donor.Some? ==> donor.value in s.data) && Idle(c, o)
    requires Residents(c.ring) == Residents(s.clock.ring) - (if donor.Some? then {donor.value} else {}) + {key}
    ensures Good(Refill(s, key, c, donor), o) && key in Refill(s, key, c, donor).data
    ensures forall k :: Content(Refill(s, key, c, donor), k) == Content(s, k)
  {
    hide Idle, Residents;
  }

  /** `Cache::page` */
  function Fetch(s: Cache, key: Key, o: Options): (r: Cache)
    requires Good(s, o)
    ensures Good(r, o) && key in r.data
    ensures forall k :: Content(r, k) == Content(s, k)
  {
    FetchGood(s, key, o);
    if key in s.data then s.(clock := Touch(s.clock, key))
    else
      var (c, donor) := Fault(s.clock, key, o);
      Refill(s, key, c, donor)
  }

  lemma FetchMiss(s: Cache, key: Key, o: Options, c: Clock, donor: Option<Key>)
    requires Good(s, o) && key !in s.data && (c, donor) == Place(s.clock, key, o)
    ensures (donor.Some? ==> donor.value in s.data) && Ok(c) && key in Keys(c.ring)
    ensures Fetch(s, key, o) == Refill(s, key, Unlock(c, key), donor)
  {
    hide Count, Residents, Keys, Place, Refill, Busy, Unlock;
  }

  lemma FetchGood(s: Cache, key: Key, o: Options)
    requires Good(s, o)
    ensures key in s.data ==>
      && key in Keys(s.clock.ring)
      && var r := s.(clock := Touch(s.clock, key)); Good(r, o) && forall k :: Content(r, k) == Content(s, k)
    ensures key !in s.data ==>
      && var (c, donor) := Fault(s.clock, key, o);
         && (donor.Some? ==> donor.value in s.data)
         && var r := Refill(s, key, c, donor);
            Good(r, o) && key in r.data && forall k :: Content(r, k) == Content(s, k)
  {
    hide Count, Residents, Keys, Fault, Refill, Busy;
    if key in s.data {
      TouchIdle(s.clock, key, o);
    } else {
      var (c, donor) := Fault(s.clock, key, o);
      RefillGood(s, key, c, donor, o);
    }
  }

  /** A write guard on the page: the bytes change and the page is dirty. */
  function WritePage(s: Cache, key: Key, bytes: Bytes, o: Options): (r: Cache)
    requires Good(s, o)
    ensures Good(r, o)
    ensures forall k :: Content(r, k) == if k == key then bytes else Content(s, k)
  {
    var s1 := Fetch(s, key, o);
    s1.(data := s1.data[key := Buf(bytes, true)])
  }

  /** `Cache::write` on each of these dirty pages */
  function FlushPages(s: Cache, keys: set<Key>): (r: Cache)
    requires keys <= s.data.Keys
    ensures r.clock == s.clock && r.data.Keys == s.data.Keys
  {
    var pages := map k | k in s.store.pages.Keys + keys :: if k in keys then s.data[k].bytes else s.store.pages[k];
    Cache(s.clock, map k | k in s.data :: if k in keys then s.data[k].(dirty := false) else s.data[k],
          Store(pages, s.store.written + keys))
  }

  function DirtyPages(s: Cache, scope: nat): set<Key> {
    set k | k in s.data && k.scope == scope && s.data[k].dirty
  }

  /** `Cache::flush`: every dirty page of the scope is written and clean again. */
  function Flush(s: Cache, scope: nat, o: Options): (r: Cache)
    requires Good(s, o)
    ensures Good(r, o)
    ensures forall k :: Content(r, k) == Content(s, k)
    ensures forall k: Key :: k.scope == scope ==> Stored(r.store, k) == Content(s, k)
  {
    FlushPages(s, DirtyPages(s, scope))
  }

  lemma FlushNone(s: Cache)
    ensures FlushPages(s, {}) == s
  {
    assert FlushPages(s, {}).data == s.data && FlushPages(s, {}).store.pages == s.store.pages;
  }

  lemma FlushOneMore(s: Cache, keys: set<Key>, k: Key)
    requires keys <= s.data.Keys && k in s.data && k !in keys && s.data[k].dirty
    ensures k in FlushPages(s, keys).data && FlushPages(s, keys).data[k] == s.data[k]
    ensures FlushPages(s, keys + {k}) ==
      Cache(s.clock, FlushPages(s, keys).data[k := Buf(s.data[k].bytes, false)],
            Save(FlushPages(s, keys).store, k, s.data[k].bytes))
  {
    var f, g := FlushPages(s, keys), FlushPages(s, keys + {k});
    assert g.store.pages == f.store.pages[k := s.data[k].bytes];
    assert s.store.written + (keys + {k}) == s.store.written + keys + {k};
    assert g.data == f.data[k := Buf(s.data[k].bytes, false)];
  }

  /** The file behind a scope is cut to its length. */
  function Cut(s: Cache, scope: nat): Cache {
    s.(store := s.store.(written := set k | k in s.store.written && k.scope != scope))
  }

  // ---------------------------------------------------------------- what gets to the store

  predicate Dirty(s: Cache, key: Key) { key in s.data && s.data[key].dirty }

  /** How many pages have a buffer */
  function Resident(c: Clock): int { c.nHot + c.nCold }

  /** With `n` free buffers nothing is written, and no more of them are used. */
  ghost predicate Roomy(s: Cache, r: Cache, n: nat, o: Options) {
    Resident(s.clock) + n <= o.maxResident ==> r.store == s.store && Resident(r.clock) <= Resident(s.clock) + n
  }

  /** A dirty page is written before it loses its buffer, and a hit does nothing to buffers and store. */
  lemma FetchWrites(s: Cache, key: Key, o: Options)
    requires Good(s, o)
    ensures var r := Fetch(s, key, o);
      && s.store.written <= r.store.written && r.data.Keys <= s.data.Keys + {key}
      && (forall k :: Dirty(s, k) ==> Dirty(r, k) || k in r.store.written)
      && (key in s.data ==> r.data == s.data && r.store == s.store && Resident(r.clock) == Resident(s.clock))
  {
    hide Count, Residents, Keys, Fault, Busy, Idle;
    FetchGood(s, key, o);
  }

  /** With a free buffer a miss writes nothing. */
  lemma FetchRoomy(s: Cache, key: Key, o: Options)
    requires Good(s, o) && Resident(s.clock) < o.maxResident
    ensures var r := Fetch(s, key, o);
      && r.store == s.store && r.data.Keys == s.data.Keys + {key}
      && Resident(r.clock) <= Resident(s.clock) + 1
  {
    hide Count, Residents, Keys, Busy;
    FetchGood(s, key, o);
    if key in s.data {
      ResidentKey(s.clock, key);
    } else {
      FaultRoomy(s.clock, key, o);
    }
  }

  lemma FaultRoomy(c: Clock, key: Key, o: Options)
    requires Idle(c, o) && key !in Residents(c.ring) && Resident(c) < o.maxResident
    ensures var (r, donor) := Fault(c, key, o); donor.None? && Resident(r) == Resident(c) + 1
  {
    hide Count, Residents, Busy, Keys, IndexOf, Append, RemoveAt, RunHandHot, KeepsProtected, Unlocked;
    FaultOk(c, key, o);
    if key in Keys(c.ring) {
      ProtectOk(c, key);
      var p := Protect(c, key);
      EntryOf(p, p.ring[IndexOf(c.ring, key)]);
      ReplaceOk(p, key);
    } else {
      AppendCounts(c, Entry(key, Test, true, false, true));
    }
  }

  // ------------------------------------------------------------------------ runs

  datatype Op = Read(key: Key) | Write(key: Key, bytes: Bytes) | FlushScope(scope: nat)

  function Step(s: Cache, op: Op, o: Options): (r: Cache)
    requires Good(s, o)
    ensures Good(r, o)
  {
    match op
    case Read(key) => Fetch(s, key, o)
    case Write(key, bytes) => WritePage(s, key, bytes, o)
    case FlushScope(scope) => Flush(s, scope, o)
  }

  function Run(s: Cache, ops: seq<Op>, o: Options): (r: Cache)
    requires Good(s, o)
    ensures Good(r, o)
    decreases |ops|
  {
    if ops == [] then s else Step(Run(s, ops[..|ops| - 1], o), ops[|ops| - 1], o)
  }

  /** What a plain map holds for a key after the same operations */
  function LastWritten(ops: seq<Op>, key: Key, initial: Bytes): Bytes
    decreases |ops|
  {
    if ops == [] then initial
    else
      var last := ops[|ops| - 1];
      if last.Write? && last.key == key then last.bytes
      else LastWritten(ops[..|ops| - 1], key, initial)
  }

  /** Over every run, with whatever evictions it brings, the cache shows each page as a
      plain map would; a page it holds clean is the page in the store, and the clock
      stays counted and within its bounds. */
  lemma {:induction false} Transparent(s: Cache, ops: seq<Op>, o: Options)
    requires Good(s, o)
    ensures forall k :: Content(Run(s, ops, o), k) == LastWritten(ops, k, Content(s, k))
    ensures Good(Run(s, ops, o), o)
    decreases |ops|
  {
    if ops != [] {
      hide Good, Fetch, WritePage, Flush, Content;
      Transparent(s, ops[..|ops| - 1], o);
      var t, last := Run(s, ops[..|ops| - 1], o), ops[|ops| - 1];
      forall k ensures Content(Run(s, ops, o), k) == LastWritten(ops, k, Content(s, k)) {
        assert Content(Step(t, last, o), k) == if last.Write? && last.key == k then last.bytes else Content(t, k);
      }
    }
  }

  /** After a flush ends the run, the store itself is the plain map for that scope. */
  lemma FlushedRun(s: Cache, ops: seq<Op>, scope: nat, o: Options, k: Key)
    requires Good(s, o) && k.scope == scope
    ensures Stored(Run(s, ops + [FlushScope(scope)], o).store, k) == LastWritten(ops, k, Content(s, k))
  {
    hide Good, Fetch, WritePage, Flush, Content, Stored;
    Transparent(s, ops, o);
    assert (ops + [FlushScope(scope)])[..|ops|] == ops;
    assert Stored(Flush(Run(s, ops, o), scope, o).store, k) == Content(Run(s, ops, o), k);
  }
}
