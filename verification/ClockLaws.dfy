/**
 * What the hands do page by page, told by key and not by place: the transitions of section 3 of the CLOCK-Pro paper,
 * and which page a search may take.
 */
module ClockLaws {
  import opened ClockModel
  import opened ClockHands
  import opened LockedSearch

  // ------------------------------------------------------------------------ the ring as a map

  /** The page each key is for */
  ghost function ById(ring: seq<Entry>): (m: map<Key, Entry>)
    requires |ring| > 0
    ensures m.Keys == Keys(ring)
  {
    map k | k in Keys(ring) :: ring[IndexOf(ring, k)]
  }

  lemma ByIdAt(c: Clock, i: nat)
    requires Shape(c) && i < |c.ring| - 1
    ensures c.ring[i].key in Keys(c.ring) && ById(c.ring)[c.ring[i].key] == c.ring[i]
  {
    OnlyIndex(c, i);
  }

  /** The same pages in whatever places, and one of them changed or gone */
  lemma ByIdIs(c: Clock, r: Clock, m: map<Key, Entry>)
    requires Shape(c) && Shape(r)
    requires forall j :: 0 <= j < |r.ring| - 1 ==> r.ring[j].key in m && m[r.ring[j].key] == r.ring[j]
    requires forall k :: k in m ==> exists j :: 0 <= j < |r.ring| - 1 && r.ring[j].key == k
    ensures ById(r.ring) == m
  {
    hide IndexOf;
    forall k | k in m ensures k in Keys(r.ring) { }
    forall k | k in Keys(r.ring) ensures k in m && ById(r.ring)[k] == m[k] {
      var j :| 0 <= j < |r.ring| - 1 && r.ring[j].key == k;
      ByIdAt(r, j);
    }
  }

  lemma ByIdPut(c: Clock, i: nat, e: Entry)
    requires Shape(c) && i < |c.ring| - 1 && e.key == c.ring[i].key && e.status != End
    ensures Shape(Put(c, i, e)) && ById(Put(c, i, e).ring) == ById(c.ring)[e.key := e]
  {
    hide IndexOf, Count, Residents;
    PutOk(c, i, e);
    var r, m := Put(c, i, e), ById(c.ring)[e.key := e];
    forall j | 0 <= j < |r.ring| - 1 ensures r.ring[j].key in m && m[r.ring[j].key] == r.ring[j] {
      ByIdAt(c, j);
    }
    forall k | k in m ensures exists j :: 0 <= j < |r.ring| - 1 && r.ring[j].key == k {
      var j :| 0 <= j < |c.ring| - 1 && c.ring[j].key == k;
      assert r.ring[j].key == k;
    }
    ByIdIs(c, r, m);
  }

  lemma ByIdRemove(c: Clock, i: nat)
    requires Shape(c) && i < |c.ring| - 1
    ensures Shape(RemoveAt(c, i)) && ById(RemoveAt(c, i).ring) == ById(c.ring) - {c.ring[i].key}
  {
    hide IndexOf;
    RemoveShape(c, i);
    RemoveKeys(c, i);
    var r := RemoveAt(c, i);
    var m := ById(c.ring) - {c.ring[i].key};
    forall j | 0 <= j < |r.ring| - 1 ensures r.ring[j].key in m && m[r.ring[j].key] == r.ring[j] {
      ByIdAt(c, if j < i then j else j + 1);
    }
    forall k | k in m ensures exists j :: 0 <= j < |r.ring| - 1 && r.ring[j].key == k {
      assert k in Keys(r.ring);
    }
    ByIdIs(c, r, m);
  }

  lemma ByIdAppend(c: Clock, e: Entry)
    requires Shape(c) && e.status != End && e.key !in Keys(c.ring)
    ensures Shape(Append(c, e)) && ById(Append(c, e).ring) == ById(c.ring)[e.key := e]
  {
    hide IndexOf, Count, Residents;
    AppendShape(c, e);
    AppendOk(c, e);
    var r, m, n := Append(c, e), ById(c.ring)[e.key := e], |c.ring|;
    hide Append;
    forall j | 0 <= j < |r.ring| - 1 ensures r.ring[j].key in m && m[r.ring[j].key] == r.ring[j] {
      if j < n - 1 { ByIdAt(c, j); }
    }
    forall k | k in m ensures exists j :: 0 <= j < |r.ring| - 1 && r.ring[j].key == k {
      assert k in Keys(r.ring);
    }
    ByIdIs(c, r, m);
  }

  lemma ByIdMove(c: Clock, i: nat)
    requires Ok(c) && i < |c.ring| - 1
    ensures Shape(MoveToHead(c, i)) && ById(MoveToHead(c, i).ring) == ById(c.ring)
  {
    hide IndexOf, Count, Keys, Residents, Append, RemoveAt;
    ByIdRemove(c, i);
    ByIdAt(c, i);
    NotEnd(c, i);
    RemoveOk(c, i);
    ByIdAppend(RemoveAt(c, i), c.ring[i]);
    var m, k := ById(c.ring), c.ring[i].key;
    assert (m - {k})[k := m[k]] == m;
  }

  // ------------------------------------------------------------------------ the places of the hands

  /** A hand on the page that goes is on the next one; the others stay on their pages. */
  lemma HandsAfterRemove(c: Clock, i: nat)
    requires Shape(c) && i < |c.ring| - 1
    ensures var r := RemoveAt(c, i);
      && r.ring[r.hot] == c.ring[if c.hot == i then i + 1 else c.hot]
      && r.ring[r.cold] == c.ring[if c.cold == i then i + 1 else c.cold]
      && r.ring[r.test] == c.ring[if c.test == i then i + 1 else c.test]
  {
  }

  /** Every hand stays on its page, and the new page is the last before the End page. */
  lemma HandsAfterAppend(c: Clock, e: Entry)
    requires Shape(c)
    ensures var r := Append(c, e);
      && r.ring[r.hot] == c.ring[c.hot] && r.ring[r.cold] == c.ring[c.cold] && r.ring[r.test] == c.ring[c.test]
      && |r.ring| == |c.ring| + 1 && r.ring[|r.ring| - 2] == e
  {
  }

  // ------------------------------------------------------------------------ HAND_hot and HAND_test

  /** The map with the page changed, or without it */
  function Became(m: map<Key, Entry>, key: Key, e: Option<Entry>): map<Key, Entry> {
    if e.None? then m - {key} else m[key := e.value]
  }

  /** What a page is after its test period: gone, if it has no buffer */
  function TestOver(e: Entry): Option<Entry> {
    if e.resident then Some(Entry(e.key, Cold, true, e.refd, e.locked)) else None
  }

  /** HAND_hot at a hot page: a locked one is left alone, a referenced one loses its bit, others start a test period. */
  function Cooled(e: Entry): Entry {
    if e.locked then e
    else if e.refd then Entry(e.key, Hot, e.resident, false, false)
    else Entry(e.key, Test, e.resident, false, false)
  }

  lemma HandleHotTable(c: Clock, i: nat)
    requires Shape(c) && i < |c.ring| - 1 && c.ring[i].status == Hot
    ensures ById(HandleHot(c, i).0.ring) == ById(c.ring)[c.ring[i].key := Cooled(c.ring[i])]
    ensures HandleHot(c, i).1 <==> !c.ring[i].locked && !c.ring[i].refd
    ensures HandleHot(c, i).0.nHot == c.nHot - if HandleHot(c, i).1 then 1 else 0
  {
    hide IndexOf;
    ByIdAt(c, i);
    ByIdPut(c, i, Cooled(c.ring[i]));
    assert c.ring[i := c.ring[i]] == c.ring;
  }

  lemma ExpireTable(c: Clock, i: nat)
    requires Shape(c) && i < |c.ring| - 1 && (c.ring[i].status == Cold || c.ring[i].status == Test)
    ensures ById(Expire(c, i).ring) == Became(ById(c.ring), c.ring[i].key, TestOver(c.ring[i]))
    ensures Expire(c, i).nHot == c.nHot
  {
    hide IndexOf;
    if c.ring[i].resident {
      ByIdPut(c, i, TestOver(c.ring[i]).value);
    } else {
      ByIdRemove(c, i);
    }
  }

  /** One page under HAND_hot, and no other, changes: a hot one as above, a cold one's test period is over. */
  lemma HotStepTable(c: Clock)
    requires Ok(c)
    ensures var e, m, (r, o) := c.ring[c.hot], ById(c.ring), HotStep(c);
      && r.nHot == c.nHot - (if o == HotOutcome.Cooled then 1 else 0)
      && ById(r.ring) == match e.status
           case Hot => m[e.key := Cooled(e)]
           case Cold => Became(m, e.key, TestOver(e))
           case Test => Became(m, e.key, TestOver(e))
           case ProtectedTest => m
           case End => m
  {
    hide IndexOf, Count, Keys, Residents, Busy, KeepsProtected, Unlocked, ById, HandleHot, Expire;
    var i := c.hot;
    var c1 := c.(hot := Next(c, i));
    MoveOk(c, c1);
    if c.ring[i].status == Hot {
      HandleHotTable(c1, i);
    } else if c.ring[i].status == Cold || c.ring[i].status == Test {
      ExpireTable(c1, i);
    }
  }

  /** One page under HAND_test, and no other, changes: a cold one's test period is over. */
  lemma TestStepTable(c: Clock)
    requires Ok(c)
    ensures var e, m := c.ring[c.test], ById(c.ring);
      ById(TestStep(c).0.ring) ==
        if e.status == Cold || e.status == Test then Became(m, e.key, TestOver(e)) else m
  {
    hide IndexOf, Count, Keys, Residents, Busy, KeepsProtected, Unlocked, ById, Expire;
    var i := c.test;
    var c1 := c.(test := Next(c, i));
    MoveOk(c, c1);
    if c.ring[i].status == Cold || c.ring[i].status == Test { ExpireTable(c1, i); }
  }

  /** A sweep of HAND_hot turns one page cold, or none. */
  lemma {:induction false} HotSweepCount(c: Clock, d: Option<nat>)
    requires Ok(c)
    ensures var (r, done) := HotSweep(c, d); r.nHot == c.nHot - if done then 1 else 0
    decreases if d.None? then 1 else 0, if d.None? then |c.ring| - c.hot else d.value
  {
    hide Ok, HotStep, ById;
    if d != Some(0) {
      HotStepTable(c);
      var (c1, o) := HotStep(c);
      if o != HotOutcome.Cooled {
        InRing(c);
        HotSweepCount(c1, if o == Tracked then Track(d, |c.ring| - 1) else Dec(d));
      }
    }
  }

  /** Where HAND_hot is run for a page that turned hot, the number of hot pages stays, if one can be turned cold. */
  lemma HandHotMakesUp(c: Clock, required: bool, i: nat)
    requires Ok(c) && (required ==> Unlocked(c.ring)) && i < |c.ring| && Coolable(c.ring[i])
    ensures RunHandHot(c, required).nHot == c.nHot - 1 && RunHandHot(c, required).nCold == c.nCold + 1
  {
    hide HotSweep, HotForce, Count, Keys, Residents, Busy, KeepsProtected, Unlocked;
    HotSweepCools(c, None, i);
    HotSweepCount(c, None);
  }

  lemma ForceStepTable(c: Clock)
    requires Ok(c)
    ensures var e, m, (r, done) := c.ring[c.hot], ById(c.ring), ForceStep(c);
      && ById(r.ring) == (if e.status == Hot then m[e.key := Cooled(e)] else m)
      && (done <==> Coolable(e)) && r.nHot == c.nHot - if done then 1 else 0
  {
    hide IndexOf, Count, Keys, Residents, Busy, KeepsProtected, Unlocked, ById, HandleHot;
    var c1 := c.(hot := Next(c, c.hot));
    MoveOk(c, c1);
    if c.ring[c.hot].status == Hot { HandleHotTable(c1, c.hot); }
  }

  lemma {:induction false} HotForceCount(c: Clock, k: nat)
    requires Ok(c) && Ahead(c.ring, c.hot, k, FreeHot)
    ensures HotForce(c, k).nHot == c.nHot - 1
    decreases Count(c.ring, Referenced), k
  {
    hide Ok, Ahead, ForceStep, ById, Count;
    ForceStepTable(c);
    var (c1, done) := ForceStep(c);
    if !done {
      InRing(c);
      ForceProgress(c, k);
      HotForceCount(c1, if Meets(c.ring[c.hot], FreeHot) then |c1.ring| else k - 1);
    }
  }

  /** With no cold page left and one asked for, exactly one page turns cold, referenced or not. */
  lemma HandHotForced(c: Clock)
    requires Ok(c) && Unlocked(c.ring) && c.nCold == 0
    ensures RunHandHot(c, true).nHot == c.nHot - 1 && RunHandHot(c, true).nCold == 1
  {
    hide HotSweep, HotForce, Count, Keys, Residents, Busy, KeepsProtected, Unlocked;
    HotSweepCount(c, None);
    var (c1, done) := HotSweep(c, None);
    if !done {
      FreeHotExists(c1);
      HotForceCount(c1, |c1.ring|);
    }
  }

  /** With a cold page, or none asked for, HAND_hot ends with its first loop: no page turns cold if that turned none. */
  lemma HandHotUnforced(c: Clock, required: bool)
    requires Ok(c) && (required ==> Unlocked(c.ring)) && (required ==> c.nCold > 0)
    ensures RunHandHot(c, required) == HotSweep(c, None).0
    ensures RunHandHot(c, required).nHot == c.nHot - if HotSweep(c, None).1 then 1 else 0
  {
    hide HotSweep, HotForce, Count, Keys, Residents, Busy, KeepsProtected, Unlocked;
    HotSweepCount(c, None);
  }

  // ------------------------------------------------------------------------ HAND_cold

  /** The page under the hand can be taken. */
  ghost predicate Takes(c: Clock, key: Key) {
    c.cold < |c.ring| && var e := c.ring[c.cold];
    e.key == key && e.resident && (e.status == Cold || e.status == Test) && !e.locked && !e.refd
  }

  /** The victim of a search is a page whose reference bit was clear when the hand came to it. */
  lemma {:induction false} VictimWasClear(c: Clock, n: nat, maxGhost: nat)
    requires Ok(c) && Unlocked(c.ring) && Rounds(c, n, maxGhost).1.Some?
    ensures exists i: nat ::
      i < n && Rounds(c, i, maxGhost).1.None? && Takes(Rounds(c, i, maxGhost).0, Rounds(c, n, maxGhost).1.value)
    decreases n
  {
    hide Ok, Unlocked, ColdStep, Yields, Takes;
    var (c1, victim) := ColdStep(c, maxGhost);
    if victim.Some? {
      TakesNow(c, maxGhost);
      assert Rounds(c, 0, maxGhost) == (c, None);
    } else {
      VictimWasClear(c1, n - 1, maxGhost);
      var i: nat :| i < n - 1 && Rounds(c1, i, maxGhost).1.None? &&
        Takes(Rounds(c1, i, maxGhost).0, Rounds(c1, n - 1, maxGhost).1.value);
      assert Rounds(c, i + 1, maxGhost) == Rounds(c1, i, maxGhost);
    }
  }

  lemma TakesNow(c: Clock, maxGhost: nat)
    requires Ok(c) && Unlocked(c.ring) && ColdStep(c, maxGhost).1.Some?
    ensures Takes(c, ColdStep(c, maxGhost).1.value)
  {
  }

  lemma {:induction false} SweepIsRounds(c: Clock, k: nat, maxGhost: nat)
    requires Ok(c) && Reclaimable(c.ring) && Near(c, k)
    ensures exists n: nat :: var (r, key) := ColdSweep(c, k, maxGhost); Rounds(c, n, maxGhost) == (r, Some(key))
    decreases Count(c.ring, Referenced), Count(c.ring, LockedTest), k
  {
    hide Count, Ok, HasTarget, ColdStep, Near, Unlocked, Yields;
    InRing(c);
    var (c1, victim) := ColdStep(c, maxGhost);
    if victim.Some? {
      assert Rounds(c, 1, maxGhost) == (c1, victim);
    } else {
      ColdProgress(c, k, maxGhost);
      var k1 := if Target(c.ring[c.cold]) then 2 * |c1.ring| + 1 else k - 1;
      SweepIsRounds(c1, k1, maxGhost);
      var n: nat :| var (r, key) := ColdSweep(c1, k1, maxGhost); Rounds(c1, n, maxGhost) == (r, Some(key));
      assert Rounds(c, n + 1, maxGhost) == Rounds(c1, n, maxGhost);
    }
  }

  /** `run_hand_cold`, HAND_hot having run if need be, takes a page whose bit was clear when the hand came to it. */
  lemma SearchTakesClear(c: Clock, maxGhost: nat)
    requires Ok(c) && Reclaimable(c.ring)
    ensures var c0 := if c.nCold == 0 then RunHandHot(c, true) else c;
      Unlocked(c0.ring) && exists i: nat ::
        Rounds(c0, i, maxGhost).1.None? && Takes(Rounds(c0, i, maxGhost).0, RunHandCold(c, maxGhost).1)
  {
    hide Count, Near, Rounds, ColdSweep, RunHandHot, Takes, Evolves;
    var c0 := if c.nCold == 0 then RunHandHot(c, true) else c;
    SearchStarts(c);
    OkAfterHot(c);
    SweepIsRounds(c0, 2 * |c0.ring| + 1, maxGhost);
    var n: nat :|
      var (r, key) := ColdSweep(c0, 2 * |c0.ring| + 1, maxGhost); Rounds(c0, n, maxGhost) == (r, Some(key));
    VictimWasClear(c0, n, maxGhost);
  }

  lemma OkAfterHot(c: Clock)
    requires Ok(c) && Reclaimable(c.ring)
    ensures Ok(if c.nCold == 0 then RunHandHot(c, true) else c)
  {
    hide RunHandHot, Count;
  }

  lemma SparedStep(c: Clock, e: Entry, maxGhost: nat)
    requires Ok(c) && Unlocked(c.ring)
    requires var d := c.ring[c.cold];
      && d.resident && d.status == Cold && (d.locked || d.refd)
      && e == Entry(d.key, Cold, true, d.refd && d.locked, d.locked)
    ensures var c2 := Put(c.(cold := Next(c, c.cold)), c.cold, e);
      && c.cold < |c.ring| - 1 && Ok(c2) && ColdStep(c, maxGhost).0 == MoveToHead(c2, c.cold)
      && c2.nHot == c.nHot && c2.nCold == c.nCold
  {
    hide IndexOf, Count, Keys, Residents, Busy, KeepsProtected, Unlocked, Counted, Settled, MoveToHead;
    var i := c.cold;
    var c1 := c.(cold := Next(c, i));
    MoveOk(c, c1);
    assert Rescued(c.ring[i]) == e;
    assert Rescue(c1, i) == Put(c1, i, e);
    OnlyIndex(Put(c1, i, e), i);
  }

  lemma MoveCounts(c: Clock, i: nat)
    requires i < |c.ring| && |c.ring| > 1
    ensures MoveToHead(c, i).nHot == c.nHot && MoveToHead(c, i).nCold == c.nCold
  {
  }

  /** A cold page that is spared, its test period over, loses its bit unless it is locked, and is last in the list. */
  lemma SparedTable(c: Clock, maxGhost: nat)
    requires Ok(c) && Unlocked(c.ring)
    requires var e := c.ring[c.cold]; e.resident && e.status == Cold && (e.locked || e.refd)
    ensures var e, r := c.ring[c.cold], ColdStep(c, maxGhost).0;
      var e1 := Entry(e.key, Cold, true, e.refd && e.locked, e.locked);
      && ById(r.ring) == ById(c.ring)[e.key := e1] && |r.ring| == |c.ring| && r.ring[|r.ring| - 2] == e1
      && r.nHot == c.nHot && r.nCold == c.nCold
  {
    hide Count, Keys, Residents, Busy, KeepsProtected, Unlocked, ById, Counted, Settled, ColdStep, MoveToHead;
    var i := c.cold;
    var e := c.ring[i];
    var e1 := Entry(e.key, Cold, true, e.refd && e.locked, e.locked);
    SparedStep(c, e1, maxGhost);
    var c1 := c.(cold := Next(c, i));
    ByIdPut(c1, i, e1);
    var c2 := Put(c1, i, e1);
    ByIdMove(c2, i);
    MoveMembers(c2, i);
    MoveCounts(c2, i);
  }

  /** A page in its test period that is spared for its reference bit loses it; as many pages are hot as before. */
  lemma PromotedTable(c: Clock, i: nat)
    requires Ok(c) && Unlocked(c.ring) && i < |c.ring| - 1
    requires var e := c.ring[i]; e.resident && e.status == Test && !e.locked && e.refd
    ensures var s := Spare(c, i);
      && ById(s.ring) == ById(c.ring)[c.ring[i].key := Entry(c.ring[i].key, Hot, true, false, false)]
      && s.nHot == c.nHot + 1
    ensures Rescue(c, i).nHot == c.nHot && Rescue(c, i).nCold == c.nCold
  {
    hide IndexOf, Count, Keys, Residents, Busy, KeepsProtected, Unlocked, RunHandHot;
    var e := c.ring[i];
    assert Rescued(e) == Entry(e.key, Hot, true, false, false);
    ByIdPut(c, i, Rescued(e));
    RescueOk(c, i);
    HandHotMakesUp(Spare(c, i), true, i);
  }

  /** Whatever page is spared is the last in the list. */
  lemma SparedIsLast(c: Clock, maxGhost: nat)
    requires Ok(c) && Unlocked(c.ring)
    requires var e := c.ring[c.cold]; e.resident && (e.status == Cold || e.status == Test) && (e.locked || e.refd)
    ensures var r := ColdStep(c, maxGhost).0.ring; |r| > 1 && r[|r| - 2].key == c.ring[c.cold].key
  {
    hide Count, Keys, Residents, Busy, KeepsProtected, Unlocked, IndexOf, Rescue, MoveToHead;
    var c1 := c.(cold := Next(c, c.cold));
    MoveOk(c, c1);
    var c2 := Rescue(c1, c.cold);
    MoveMembers(c2, IndexOf(c2.ring, c.ring[c.cold].key));
  }

  /** A locked page in its test period turns hot when the hand comes to it. */
  lemma LockedTurnsHot(c: Clock, i: nat)
    requires Ok(c) && i < |c.ring| - 1
    requires var e := c.ring[i]; e.resident && e.status == Test && e.locked
    ensures ById(Spare(c, i).ring) == ById(c.ring)[c.ring[i].key := Entry(c.ring[i].key, Hot, true, c.ring[i].refd, true)]
    ensures Spare(c, i).nHot == c.nHot + 1
  {
    hide IndexOf;
    assert Rescued(c.ring[i]) == Entry(c.ring[i].key, Hot, true, c.ring[i].refd, true);
    ByIdPut(c, i, Rescued(c.ring[i]));
  }

  /**
   * The victim leaves the clock if its test period is over, and else stays without a buffer; pages without one are one
   * more then, up to their bound.
   */
  lemma EvictTable(c: Clock, i: nat, maxGhost: nat)
    requires Ok(c) && i < |c.ring| - 1 && Is(c.ring[i], ResidentCold) && c.nGhost <= maxGhost
    ensures var e, m, r := c.ring[i], ById(c.ring), Evict(c, i, maxGhost);
      && (e.status == Cold ==> ById(r.ring) == m - {e.key} && r.nGhost == c.nGhost)
      && (e.status == Test && c.nGhost < maxGhost ==>
          ById(r.ring) == m[e.key := Entry(e.key, Test, false, e.refd, true)] && r.nGhost == c.nGhost + 1)
      && (e.status == Test && c.nGhost == maxGhost ==> r.nGhost == c.nGhost)
  {
    hide IndexOf, Count, Residents, Busy, KeepsProtected, TestSweep;
    var e := c.ring[i];
    if e.status == Cold {
      ByIdRemove(c, i);
    } else {
      var g := e.(resident := false, locked := true);
      ByIdPut(c, i, g);
      if c.nGhost == maxGhost {
        GhostOk(c, i);
        GhostExpirable(c, i, Put(c, i, g).(nCold := c.nCold - 1, nGhost := c.nGhost + 1), maxGhost);
      }
    }
  }
}
