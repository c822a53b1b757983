/** What a hit, a miss and a flush do to a page, its buffer and the store, and that they leave all others alone. */
module CacheLaws {
  import opened ClockModel
  import opened ClockHands
  import opened CacheModel
  import opened ClockLaws

  /** A hit sets the page's reference bit, changes no other page, and moves no hand. */
  lemma HitSetsBit(s: Cache, key: Key, o: Options)
    requires Good(s, o) && key in s.data
    ensures var r, m := Fetch(s, key, o).clock, ById(s.clock.ring);
      && key in m && ById(r.ring) == m[key := Entry(key, m[key].status, true, true, m[key].locked)]
      && r.hot == s.clock.hot && r.cold == s.clock.cold && r.test == s.clock.test
  {
    hide Count, Keys, Residents, Busy, IndexOf;
    FetchGood(s, key, o);
    var c := s.clock;
    EntryAt(c, key);
    var i := IndexOf(c.ring, key);
    ByIdAt(c, i);
    ByIdPut(c, i, Touch(c, key).ring[i]);
  }

  /** The last page before the End page */
  function Newest(c: Clock): Entry
    requires |c.ring| > 1
  {
    c.ring[|c.ring| - 2]
  }

  lemma AppendedLast(c: Clock, e: Entry)
    requires |c.ring| > 0
    ensures |Append(c, e).ring| > 1 && Newest(Append(c, e)) == e
  {
  }

  lemma ReplacedLast(c: Clock, key: Key)
    requires Ok(c) && key in Keys(c.ring) && key !in Residents(c.ring)
    requires c.ring[IndexOf(c.ring, key)].status == ProtectedTest
    ensures var r := Replace(c, key);
      |r.ring| > 1 && Newest(r) == c.ring[IndexOf(c.ring, key)].(status := Hot, resident := true)
  {
    hide Count, Keys, Residents, Busy, Ok, RunHandHot, RemoveAt, Append, IndexOf, Unlocked, KeepsProtected;
    ShapeOf(c);
    EntryAt(c, key);
    var i := IndexOf(c.ring, key);
    DetachOk(c, i);
    var c2 := RunHandHot(RemoveAt(c, i).(nGhost := c.nGhost - 1), false);
    ShapeOf(c2);
    AppendedLast(c2, c.ring[i].(status := Hot, resident := true));
  }

  /** HAND_hot makes up for the page that comes back hot, if it can. */
  lemma ReplaceCools(c: Clock, key: Key, i: nat)
    requires Ok(c) && key in Keys(c.ring) && key !in Residents(c.ring)
    requires c.ring[IndexOf(c.ring, key)].status == ProtectedTest && i < |c.ring| && Coolable(c.ring[i])
    ensures Replace(c, key).nHot == c.nHot && Replace(c, key).nCold == c.nCold + 1
  {
    hide Count, Keys, Residents, Busy, Ok, RunHandHot, RemoveAt, Append, IndexOf, Unlocked, KeepsProtected;
    ShapeOf(c);
    EntryAt(c, key);
    var k := IndexOf(c.ring, key);
    DetachOk(c, k);
    var c1 := RemoveAt(c, k).(nGhost := c.nGhost - 1);
    StaysAt(c, k, i);
    HandHotMakesUp(c1, false, if i < k then i else i - 1);
    var c2 := RunHandHot(c1, false);
    ShapeOf(c2);
    AppendCounts(c2, c.ring[k].(status := Hot, resident := true));
  }

  lemma StaysAt(c: Clock, k: nat, i: nat)
    requires k < |c.ring| - 1 && i < |c.ring| && i != k
    ensures var r := RemoveAt(c, k); var j := if i < k then i else i - 1;
      j < |r.ring| && r.ring[j] == c.ring[i] && r.nHot == c.nHot && r.nCold == c.nCold
  {
  }

  /** What a page in the clock without a buffer is, once it is protected and room was made */
  lemma ProtectedPage(c: Clock, key: Key, o: Options)
    requires Idle(c, o) && key !in Residents(c.ring) && key in Keys(c.ring) && o.maxResident > 0
    ensures var p := Protect(c, key);
      && Ok(p) && (p.nHot + p.nCold >= o.maxResident ==> Reclaimable(p.ring))
      && var c2 := MakeRoom(p, o).0;
         && Ok(c2) && key in Keys(c2.ring) && key !in Residents(c2.ring)
         && c2.ring[IndexOf(c2.ring, key)] == ById(c.ring)[key].(status := ProtectedTest)
  {
    hide Count, Keys, Residents, Busy, Reclaimable, KeepsProtected, MakeRoom, IndexOf, Counted, Settled;
    ProtectOk(c, key);
    var p := Protect(c, key);
    MakeRoomOk(p, key, o);
    var c2 := MakeRoom(p, o).0;
    var e := p.ring[IndexOf(c.ring, key)];
    assert e in c2.ring by { Kept(p.ring, c2.ring, e); }
    EntryOf(c2, e);
  }

  /**
   * A page that the clock still knows comes back hot, one that it does not is cold and in its test period; either is
   * the last in the list.
   */
  lemma PlacedPage(c: Clock, key: Key, o: Options)
    requires Idle(c, o) && key !in Residents(c.ring) && o.maxResident > 0
    ensures var r := Place(c, key, o).0; |r.ring| > 1 && var e := Newest(r);
      && e.key == key && e.resident
      && e.status == (if key in Keys(c.ring) then Hot else Test)
      && e.refd == (key in Keys(c.ring) && ById(c.ring)[key].refd)
  {
    hide Count, Residents, Busy, Reclaimable, KeepsProtected, MakeRoom, IndexOf, Replace, Append, Protect, Newest, Keys;
    FaultOk(c, key, o);
    if key in Keys(c.ring) {
      ProtectedPage(c, key, o);
      ReplacedLast(MakeRoom(Protect(c, key), o).0, key);
    } else {
      MakeRoomOk(c, key, o);
      AppendedLast(MakeRoom(c, o).0, Entry(key, Test, true, false, true));
      SameRing(Admit(MakeRoom(c, o).0, key), Append(MakeRoom(c, o).0, Entry(key, Test, true, false, true)));
    }
  }

  lemma SameRing(a: Clock, b: Clock)
    requires a.ring == b.ring && |a.ring| > 1
    ensures Newest(a) == Newest(b)
  {
  }

  /** The page that a miss brings in, its share dropped again */
  lemma FaultedPage(c: Clock, key: Key, o: Options)
    requires Idle(c, o) && key !in Residents(c.ring) && o.maxResident > 0
    ensures var r, known := Fault(c, key, o).0, key in Keys(c.ring);
      && |r.ring| > 1
      && Newest(r) == Entry(key, if known then Hot else Test, true, known && ById(c.ring)[key].refd, false)
  {
    hide Count, Residents, Busy, Place, IndexOf;
    PlacedPage(c, key, o);
    var c1 := Place(c, key, o).0;
    OnlyIndex(c1, |c1.ring| - 2);
  }

  /** A buffer is taken from a page exactly if every buffer there may be is in use. */
  lemma DonorExactlyWhen(c: Clock, key: Key, o: Options)
    requires Idle(c, o) && key !in Residents(c.ring) && o.maxResident > 0
    ensures Fault(c, key, o).1.Some? <==> Resident(c) == o.maxResident
  {
    hide Count, Residents, Busy, Reclaimable, KeepsProtected, RunHandCold, IndexOf, RunHandHot, RemoveAt, Append, Evolves;
    FaultOk(c, key, o);
    if key in Keys(c.ring) { ProtectOk(c, key); }
  }

  /** A miss brings the page in clean, drops one buffer at most, and writes only that one, if it is dirty. */
  lemma MissWritesVictim(s: Cache, key: Key, o: Options)
    requires Good(s, o) && key !in s.data
    ensures var r := Fetch(s, key, o); var gone := s.data.Keys - r.data.Keys;
      && r.data.Keys == s.data.Keys - gone + {key} && !r.data[key].dirty
      && (forall k :: k in s.data && k in r.data ==> r.data[k] == s.data[k])
      && (forall a, b :: a in gone && b in gone ==> a == b)
      && (gone != {} <==> Resident(s.clock) == o.maxResident)
      && r.store.written == s.store.written + (set k | k in gone && s.data[k].dirty)
      && (forall k :: k !in gone ==> Stored(r.store, k) == Stored(s.store, k))
  {
    hide Count, Residents, Keys, Fault, Busy, Idle;
    FetchGood(s, key, o);
    DonorExactlyWhen(s.clock, key, o);
  }

  /**
   * A flush writes the scope's dirty pages and no others: none of them is dirty after, and every other buffer and page of
   * the store stays.
   */
  lemma FlushWritesScope(s: Cache, scope: nat, o: Options)
    requires Good(s, o)
    ensures var r := Flush(s, scope, o);
      && DirtyPages(r, scope) == {} && r.data.Keys == s.data.Keys && r.clock == s.clock
      && r.store.written == s.store.written + (set k | k in s.data && k.scope == scope && s.data[k].dirty)
      && (forall k :: k in s.data ==> r.data[k].bytes == s.data[k].bytes)
      && (forall k :: k in s.data && k.scope != scope ==> r.data[k] == s.data[k])
      && (forall k: Key :: k.scope != scope ==> Stored(r.store, k) == Stored(s.store, k))
  {
    hide Idle, Residents;
  }
}
