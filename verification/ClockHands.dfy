/** The three hands of the clock: what they do, that they stop, and what they keep. */
module ClockHands {
  import opened ClockModel

  lemma MoveOk(c: Clock, r: Clock)
    requires Ok(c) && r == c.(hot := r.hot, cold := r.cold, test := r.test)
    requires r.hot < |c.ring| && r.cold < |c.ring| && r.test < |c.ring|
    ensures Evolves(c, r)
  {
  }

  lemma EvolvesTrans(a: Clock, b: Clock, c: Clock)
    requires Evolves(a, b) && Evolves(b, c)
    ensures Evolves(a, c)
  {
  }

  // ----------------------------------------------- something ahead of a hand

  /** What a hand may be looking for */
  datatype Goal = FreeHot | Expirable

  predicate Meets(e: Entry, g: Goal) {
    match g
    case FreeHot => Is(e, HotPage) && !e.locked
    case Expirable => !e.resident && (e.status == Cold || e.status == Test)
  }

  function Wrap(n: nat, x: nat): nat
    requires n > 0
  {
    if x >= n then x - n else x
  }

  /** How many steps a hand at `h` takes to get to `i` */
  function Steps(n: nat, h: nat, i: nat): int {
    if h <= i then i - h else i + n - h
  }

  /** Within the next `k` pages from position `h` on, one meets the goal */
  ghost predicate Ahead(ring: seq<Entry>, h: nat, k: nat, g: Goal) {
    && h < |ring|
    && exists i :: 0 <= i < |ring| && Meets(ring[i], g) && Steps(|ring|, h, i) < k
  }

  lemma AheadAll(ring: seq<Entry>, h: nat, i: nat, g: Goal)
    requires h < |ring| && i < |ring| && Meets(ring[i], g)
    ensures Ahead(ring, h, |ring|, g)
  {
  }

  lemma AheadStep(ring: seq<Entry>, h: nat, k: nat, g: Goal)
    requires Ahead(ring, h, k, g) && !Meets(ring[h], g)
    ensures k > 1 && Ahead(ring, Wrap(|ring|, h + 1), k - 1, g)
  {
    var i :| 0 <= i < |ring| && Meets(ring[i], g) && Steps(|ring|, h, i) < k;
    assert Steps(|ring|, Wrap(|ring|, h + 1), i) == Steps(|ring|, h, i) - 1;
  }

  // ------------------------------------------------------------------ HAND_test

  /** HAND_test passes one page; true if the page left the clock. */
  function TestStep(c: Clock): (r: (Clock, bool))
    requires Ok(c)
    ensures Evolves(c, r.0)
  {
    var i := c.test;
    var e := c.ring[i];
    var c1 := c.(test := Next(c, i));
    MoveOk(c, c1);
    if e.status == Cold || e.status == Test then
      ExpireEvolves(c1, i);
      EvolvesTrans(c, c1, Expire(c1, i));
      (Expire(c1, i), !e.resident)
    else (c1, false)
  }

  /** `run_hand_test`, with `n` pages left until the hand is back where it started */
  function TestSweep(c: Clock, n: nat): (r: Clock)
    requires Ok(c) && n > 0
    ensures Evolves(c, r)
    decreases n
  {
    var (c1, removed) := TestStep(c);
    if removed || n == 1 then c1
    else
      var r := TestSweep(c1, n - 1);
      EvolvesTrans(c, c1, r);
      r
  }

  lemma TestStepGhosts(c: Clock)
    requires Ok(c)
    ensures var (r, removed) := TestStep(c);
      && removed == Meets(c.ring[c.test], Expirable)
      && r.nGhost == c.nGhost - (if removed then 1 else 0)
      && (!removed ==> |r.ring| == |c.ring| && r.test == Wrap(|c.ring|, c.test + 1)
                       && forall j :: 0 <= j < |r.ring| ==> Meets(r.ring[j], Expirable) == Meets(c.ring[j], Expirable))
  {
  }

  /** The sweep removes exactly one non-resident page whenever it can meet one. */
  lemma {:induction false} TestSweepRemovesOne(c: Clock, n: nat)
    requires Ok(c) && 0 < n <= |c.ring|
    ensures TestSweep(c, n).nGhost == c.nGhost - if Ahead(c.ring, c.test, n, Expirable) then 1 else 0
    decreases n
  {
    hide Count, Keys, Residents, Unlocked, KeepsProtected, Busy, Counted, Settled, TestStep;
    TestStepGhosts(c);
    var (c1, removed) := TestStep(c);
    if removed {
      assert Ahead(c.ring, c.test, n, Expirable);
    } else {
      if n > 1 {
        TestSweepRemovesOne(c1, n - 1);
      }
      SameAhead(c.ring, c1.ring, c.test, n);
    }
  }

  lemma SameAhead(ring: seq<Entry>, r: seq<Entry>, i: nat, n: nat)
    requires i < |ring| && 0 < n <= |ring| && !Meets(ring[i], Expirable)
    requires |r| == |ring| && forall j :: 0 <= j < |r| ==> Meets(r[j], Expirable) == Meets(ring[j], Expirable)
    ensures Ahead(ring, i, n, Expirable) <==> n > 1 && Ahead(r, Wrap(|r|, i + 1), n - 1, Expirable)
  {
    var h := Wrap(|r|, i + 1);
    forall j | 0 <= j < |ring| && j != i ensures Steps(|r|, h, j) == Steps(|ring|, i, j) - 1 >= 0 {
    }
    if Ahead(ring, i, n, Expirable) {
      var j :| 0 <= j < |ring| && Meets(ring[j], Expirable) && Steps(|ring|, i, j) < n;
      assert Meets(r[j], Expirable);
    }
    if n > 1 && Ahead(r, h, n - 1, Expirable) {
      var j :| 0 <= j < |r| && Meets(r[j], Expirable) && Steps(|r|, h, j) < n - 1;
      assert Meets(ring[j], Expirable);
    }
  }

  // ------------------------------------------------------------------- HAND_hot

  function Dec(d: Option<nat>): Option<nat> {
    if d.None? then None else if d.value == 0 then d else Some(d.value - 1)
  }

  /** `Stop::track`: the first page tracked is where the hand stops. */
  function Track(d: Option<nat>, n: nat): Option<nat> {
    if d.None? then Some(n) else Dec(d)
  }

  /** What HAND_hot did to the page it passed: turned it cold, let it be, dropped it
      from the clock, or met a page it may stop at */
  datatype HotOutcome = Cooled | Spared | Dropped | Tracked

  /** HAND_hot passes one page. */
  function HotStep(c: Clock): (r: (Clock, HotOutcome))
    requires Ok(c)
    ensures Evolves(c, r.0)
    ensures r.1 == Cooled ==> r.0.nCold > 0
    ensures r.1 == Spared ==> c.hot < |c.ring| - 1
    ensures r.1 == Dropped ==> c.hot < |c.ring| - 1 && |r.0.ring| == |c.ring| - 1 && r.0.hot == c.hot
    ensures r.1 != Dropped ==> |r.0.ring| == |c.ring| && r.0.hot == Next(c, c.hot)
  {
    var i := c.hot;
    var e := c.ring[i];
    var c1 := c.(hot := Next(c, i));
    MoveOk(c, c1);
    if e.status == Hot then
      HandleHotEvolves(c1, i);
      var (c2, done) := HandleHot(c1, i);
      EvolvesTrans(c, c1, c2);
      (c2, if done then Cooled else Spared)
    else if e.status == Cold || e.status == Test then
      ExpireEvolves(c1, i);
      EvolvesTrans(c, c1, Expire(c1, i));
      (Expire(c1, i), if e.resident then Tracked else Dropped)
    else (c1, Tracked)
  }

  /** The first loop of `run_hand_hot`; `d` is how far the tracked page is ahead of the hand. */
  function HotSweep(c: Clock, d: Option<nat>): (r: (Clock, bool))
    requires Ok(c)
    ensures Evolves(c, r.0)
    ensures r.1 ==> r.0.nCold > 0
    decreases if d.None? then 1 else 0, if d.None? then |c.ring| - c.hot else d.value
  {
    if d == Some(0) then (MoveOk(c, c); (c, false))
    else
      var (c1, o) := HotStep(c);
      if o == Cooled then (c1, true)
      else
        var r := HotSweep(c1, if o == Tracked then Track(d, |c.ring| - 1) else Dec(d));
        EvolvesTrans(c, c1, r.0);
        r
  }

  /** The second loop of `run_hand_hot` only looks at hot pages. */
  function ForceStep(c: Clock): (r: (Clock, bool))
    requires Ok(c)
    ensures Evolves(c, r.0)
    ensures |r.0.ring| == |c.ring| && r.0.hot == Next(c, c.hot)
    ensures r.1 ==> r.0.nCold > 0
  {
    var i := c.hot;
    var e := c.ring[i];
    var c1 := c.(hot := Next(c, i));
    MoveOk(c, c1);
    if e.status == Hot then
      HandleHotEvolves(c1, i);
      EvolvesTrans(c, c1, HandleHot(c1, i).0);
      HandleHot(c1, i)
    else (c1, false)
  }

  lemma ForceProgress(c: Clock, k: nat)
    requires Ok(c) && Ahead(c.ring, c.hot, k, FreeHot) && !ForceStep(c).1
    ensures var c1 := ForceStep(c).0;
      if Meets(c.ring[c.hot], FreeHot)
      then Count(c1.ring, Referenced) < Count(c.ring, Referenced) && Ahead(c1.ring, c1.hot, |c1.ring|, FreeHot)
      else k > 1 && Ahead(c1.ring, c1.hot, k - 1, FreeHot)
  {
    hide Count, Keys, Residents, Unlocked, KeepsProtected, Busy, Counted;
    var i := c.hot;
    var c0 := c.(hot := Next(c, i));
    MoveOk(c, c0);
    if Meets(c.ring[i], FreeHot) {
      HandleHotEvolves(c0, i);
      AheadAll(ForceStep(c).0.ring, ForceStep(c).0.hot, i, FreeHot);
    } else {
      AheadStep(c.ring, i, k, FreeHot);
    }
  }

  /** The second loop of `run_hand_hot`: a free hot page is within the next `k` pages. */
  function HotForce(c: Clock, k: nat): (r: Clock)
    requires Ok(c) && Ahead(c.ring, c.hot, k, FreeHot)
    ensures Evolves(c, r) && r.nCold > 0
    decreases Count(c.ring, Referenced), k
  {
    var (c1, done) := ForceStep(c);
    if done then c1
    else
      ForceProgress(c, k);
      var r := HotForce(c1, if Meets(c.ring[c.hot], FreeHot) then |c1.ring| else k - 1);
      EvolvesTrans(c, c1, r);
      r
  }

  lemma FreeHotExists(c: Clock)
    requires Ok(c) && Unlocked(c.ring) && c.nCold == 0
    ensures Ahead(c.ring, c.hot, |c.ring|, FreeHot) && c.nHot > 0
  {
    var i :| 0 <= i < |c.ring| && c.ring[i].resident && !c.ring[i].locked;
    CountPositive(c.ring, ResidentCold);
    CountPositive(c.ring, HotPage);
    assert !Is(c.ring[i], ResidentCold);
    assert Is(c.ring[i], HotPage);
    AheadAll(c.ring, c.hot, i, FreeHot);
  }

  /** `run_hand_hot` */
  function RunHandHot(c: Clock, coldPageRequired: bool): (r: Clock)
    requires Ok(c) && (coldPageRequired ==> Unlocked(c.ring))
    ensures Evolves(c, r)
    ensures coldPageRequired ==> r.nCold > 0
  {
    var (c1, done) := HotSweep(c, None);
    if !done && coldPageRequired && c1.nCold == 0 && c1.nHot > 0 then
      FreeHotExists(c1);
      var r := HotForce(c1, |c1.ring|);
      EvolvesTrans(c, c1, r);
      r
    else
      (if !done && coldPageRequired && c1.nCold == 0 then FreeHotExists(c1); assert false; c1 else c1)
  }

  // ------------------------------------------------------------------ HAND_cold

  function IndexOf(ring: seq<Entry>, key: Key): (i: nat)
    requires |ring| > 0 && key in Keys(ring)
    ensures i < |ring| - 1 && ring[i].key == key
  {
    if ring[0].key == key && |ring| > 1 then 0
    else (KeysTail(ring, key); 1 + IndexOf(ring[1..], key))
  }

  lemma KeysTail(ring: seq<Entry>, key: Key)
    requires |ring| > 0 && key in Keys(ring) && !(ring[0].key == key && |ring| > 1)
    ensures |ring| > 1 && key in Keys(ring[1..])
  {
    var i :| 0 <= i < |ring| - 1 && ring[i].key == key;
    assert ring[1..][i - 1].key == key;
  }

  /** Moves a page to the list head. */
  function MoveToHead(c: Clock, i: nat): (r: Clock)
    requires i < |c.ring| && |c.ring| > 1
  {
    Append(RemoveAt(c, i), c.ring[i])
  }

  lemma MoveMembers(c: Clock, i: nat)
    requires Ok(c) && i < |c.ring| - 1
    ensures var r := MoveToHead(c, i).ring;
            && |r| == |c.ring| && r[|r| - 1] == c.ring[|r| - 1] && r[|r| - 2] == c.ring[i]
            && (forall x :: x in r <==> x in c.ring) && Settled(r)
  {
    hide Count, Counted, Settled;
    assert Shape(c);
    var s, r, n := c.ring, MoveToHead(c, i).ring, |c.ring|;
    MovedSeq(s, i, r);
    MovedSettled(s, i, r);
  }

  lemma MovedSeq(s: seq<Entry>, i: nat, r: seq<Entry>)
    requires i < |s| - 1
    requires var s1 := s[..i] + s[i + 1..]; r == s1[..|s1| - 1] + [s[i]] + s1[|s1| - 1..]
    ensures r == s[..i] + s[i + 1..|s| - 1] + [s[i], s[|s| - 1]]
    ensures forall x :: x in r <==> x in s
  {
    assert s == s[..i] + [s[i]] + s[i + 1..|s| - 1] + [s[|s| - 1]];
    assert r == s[..i] + s[i + 1..|s| - 1] + [s[i], s[|s| - 1]];
    assert multiset(r) == multiset(s);
    assert forall x :: x in r <==> x in multiset(r);
  }

  lemma MovedSettled(s: seq<Entry>, i: nat, r: seq<Entry>)
    requires Settled(s) && i < |s| - 1
    requires r == s[..i] + s[i + 1..|s| - 1] + [s[i], s[|s| - 1]]
    ensures Settled(r)
  {
    assert forall j :: 0 <= j < |r| - 1 ==> r[j] == s[if j < i then j else if j == |r| - 2 then i else j + 1];
  }

  lemma MoveToHeadEvolves(c: Clock, i: nat)
    requires Ok(c) && i < |c.ring| - 1
    ensures Evolves(c, MoveToHead(c, i))
    ensures c.ring[i] in MoveToHead(c, i).ring
  {
    hide Count, Keys, Residents, Unlocked, Settled, Shape, Busy;
    MoveMembers(c, i);
    MembersBusy(c.ring, MoveToHead(c, i).ring);
    RemoveOk(c, i);
    var c1, e := RemoveAt(c, i), c.ring[i];
    assert e.status != End by { NotEnd(c, i); }
    AppendOk(c1, e);
    InSets(c.ring, i);
    if Unlocked(c.ring) {
      MovedUnlocked(c.ring, MoveToHead(c, i).ring);
    }
  }

  lemma NotEnd(c: Clock, i: nat)
    requires Shape(c) && i < |c.ring| - 1
    ensures c.ring[i].status != End
  {
  }

  lemma InSets(ring: seq<Entry>, i: nat)
    requires i < |ring| - 1
    ensures ring[i].key in Keys(ring)
    ensures ring[i].resident ==> ring[i].key in Residents(ring)
  {
  }

  lemma MovedUnlocked(ring: seq<Entry>, r: seq<Entry>)
    requires Unlocked(ring) && forall x :: x in r <==> x in ring
    ensures Unlocked(r)
  {
    var i :| 0 <= i < |ring| && ring[i].resident && !ring[i].locked;
    assert ring[i] in r;
  }

  lemma ResidentKey(c: Clock, key: Key)
    requires Shape(c) && key in Residents(c.ring)
    ensures key in Keys(c.ring)
  {
    var i :| 0 <= i < |c.ring| && c.ring[i].resident && c.ring[i].key == key;
    assert i < |c.ring| - 1;
  }

  lemma PutEvolves(c: Clock, i: nat, e: Entry, r: Clock)
    requires Ok(c) && i < |c.ring| - 1 && Is(c.ring[i], ResidentCold)
    requires e == c.ring[i].(refd := e.refd, status := e.status) && (e.status == c.ring[i].status || e.status == Hot)
    requires e.refd ==> c.ring[i].refd
    requires r == Put(c, i, e).(nHot := c.nHot + Bit(e, HotPage), nCold := c.nCold - Bit(e, HotPage))
    ensures Evolves(c, r)
    ensures forall k :: Count(r.ring, k) == Count(c.ring, k) - Bit(c.ring[i], k) + Bit(e, k)
  {
    hide Count, Keys, Residents, Unlocked, KeepsProtected, Busy;
    PutOk(c, i, e);
    PutKeepsProtected(c, i, e);
    PutBusy(c, i, e);
    if Unlocked(c.ring) {
      PutKeepsUnlocked(c, i, e);
    }
  }

  /** What a cold page that HAND_cold spares becomes: a locked one keeps its reference bit, and in the test period it
      turns hot. */
  function Rescued(e: Entry): Entry {
    e.(refd := e.refd && e.locked, status := if e.status == Test then Hot else e.status)
  }

  /** The page and the counters, when a cold page is spared */
  function Spare(c: Clock, i: nat): (r: Clock)
    requires Ok(c) && i < |c.ring| - 1 && Is(c.ring[i], ResidentCold)
    ensures Evolves(c, r) && c.ring[i].key in Keys(r.ring) && c.ring[i].key in Residents(r.ring)
    ensures forall k :: Count(r.ring, k) == Count(c.ring, k) - Bit(c.ring[i], k) + Bit(Rescued(c.ring[i]), k)
  {
    var e := Rescued(c.ring[i]);
    var r := Put(c, i, e).(nHot := c.nHot + Bit(e, HotPage), nCold := c.nCold - Bit(e, HotPage));
    InSets(c.ring, i);
    PutEvolves(c, i, e, r);
    ResidentKey(r, e.key);
    r
  }

  /** A cold page is spared; HAND_hot makes up for one that turns hot. */
  function Rescue(c: Clock, i: nat): (r: Clock)
    requires Ok(c) && Unlocked(c.ring) && i < |c.ring| - 1
    requires Is(c.ring[i], ResidentCold) && (c.ring[i].locked || c.ring[i].refd)
    ensures Evolves(c, r) && r.nCold > 0 && c.ring[i].key in Keys(r.ring)
    ensures !c.ring[i].locked ==> Count(r.ring, Referenced) < Count(c.ring, Referenced)
    ensures Is(c.ring[i], LockedTest) ==> Count(r.ring, LockedTest) < Count(c.ring, LockedTest)
  {
    RescueOk(c, i);
    if c.ring[i].status == Test then RunHandHot(Spare(c, i), true) else Spare(c, i)
  }

  lemma RescueOk(c: Clock, i: nat)
    requires Ok(c) && Unlocked(c.ring) && i < |c.ring| - 1
    requires Is(c.ring[i], ResidentCold) && (c.ring[i].locked || c.ring[i].refd)
    ensures Unlocked(Spare(c, i).ring)
    ensures var r := if c.ring[i].status == Test then RunHandHot(Spare(c, i), true) else Spare(c, i);
      && Evolves(c, r) && r.nCold > 0 && c.ring[i].key in Keys(r.ring)
      && (!c.ring[i].locked ==> Count(r.ring, Referenced) < Count(c.ring, Referenced))
      && (Is(c.ring[i], LockedTest) ==> Count(r.ring, LockedTest) < Count(c.ring, LockedTest))
  {
    hide Count, Keys, Residents, Unlocked, KeepsProtected, Busy, RunHandHot;
    var c1 := Spare(c, i);
    if c.ring[i].status == Test {
      var h := RunHandHot(c1, true);
      EvolvesTrans(c, c1, h);
      ResidentKey(h, c.ring[i].key);
    } else {
      CountPositive(c1.ring, ResidentCold);
      assert Is(c1.ring[i], ResidentCold);
    }
  }

  /** HAND_cold meets a locked or referenced page, which is spared and moves to the list head. */
  function SecondChance(c: Clock, i: nat): (r: Clock)
    requires Ok(c) && Unlocked(c.ring) && i < |c.ring| - 1
    requires Is(c.ring[i], ResidentCold) && (c.ring[i].locked || c.ring[i].refd)
    ensures Evolves(c, r) && r.nCold > 0
    ensures !c.ring[i].locked ==> Count(r.ring, Referenced) < Count(c.ring, Referenced)
    ensures Is(c.ring[i], LockedTest) ==> Count(r.ring, LockedTest) < Count(c.ring, LockedTest)
  {
    var c2 := Rescue(c, i);
    var j := IndexOf(c2.ring, c.ring[i].key);
    MoveToHeadEvolves(c2, j);
    EvolvesTrans(c, c2, MoveToHead(c2, j));
    MoveToHead(c2, j)
  }

  /** What a victim search brings: exactly the page `key` loses its buffer */
  ghost predicate Yields(c: Clock, r: Clock, key: Key, maxGhost: nat) {
    && Ok(r)
    && key in Residents(c.ring) && Residents(r.ring) == Residents(c.ring) - {key}
    && Keys(r.ring) <= Keys(c.ring)
    && r.nHot + r.nCold == c.nHot + c.nCold - 1
    && (c.nGhost <= maxGhost ==> r.nGhost <= maxGhost)
    && KeepsProtected(c.ring, r.ring)
    && Busy(r.ring) <= Busy(c.ring)
  }

  lemma YieldsTrans(a: Clock, b: Clock, c: Clock, key: Key, maxGhost: nat)
    requires Evolves(a, b) && Yields(b, c, key, maxGhost)
    ensures Yields(a, c, key, maxGhost)
  {
  }

  /** Takes the buffer of the page at `i`, which stays as a non-resident page if it is
      in its test period. */
  function Evict(c: Clock, i: nat, maxGhost: nat): (r: Clock)
    requires Ok(c) && i < |c.ring| - 1 && Is(c.ring[i], ResidentCold)
    ensures Yields(c, r, c.ring[i].key, maxGhost)
  {
    var e := c.ring[i];
    if e.status == Test then
      GhostOk(c, i);
      var g := Put(c, i, e.(resident := false, locked := true)).(nCold := c.nCold - 1, nGhost := c.nGhost + 1);
      if g.nGhost > maxGhost then
        GhostExpirable(c, i, g, maxGhost);
        TestSweep(g, |g.ring|)
      else g
    else (DropOk(c, i); RemoveAt(c, i).(nCold := c.nCold - 1))
  }

  lemma DropOk(c: Clock, i: nat)
    requires Ok(c) && i < |c.ring| - 1 && Is(c.ring[i], ResidentCold)
    ensures Yields(c, RemoveAt(c, i).(nCold := c.nCold - 1), c.ring[i].key, 0)
    ensures RemoveAt(c, i).nGhost == c.nGhost
  {
    hide Count, Keys, Residents, KeepsProtected, Busy;
    RemoveOk(c, i);
    RemoveShape(c, i);
    RemoveKeepsProtected(c, i);
    RemoveBusy(c, i);
    InSets(c.ring, i);
  }

  lemma GhostOk(c: Clock, i: nat)
    requires Ok(c) && i < |c.ring| - 1 && Is(c.ring[i], ResidentCold) && c.ring[i].status == Test
    ensures var g := Put(c, i, c.ring[i].(resident := false, locked := true)).(nCold := c.nCold - 1, nGhost := c.nGhost + 1);
      && Ok(g) && Keys(g.ring) == Keys(c.ring) && KeepsProtected(c.ring, g.ring) && Busy(g.ring) <= Busy(c.ring)
      && c.ring[i].key in Residents(c.ring) && Residents(g.ring) == Residents(c.ring) - {c.ring[i].key}
      && g.nHot + g.nCold == c.nHot + c.nCold - 1
  {
    hide Count, Keys, Residents, KeepsProtected, Busy;
    var e := c.ring[i].(resident := false, locked := true);
    PutOk(c, i, e);
    PutKeepsProtected(c, i, e);
    PutBusy(c, i, e);
    InSets(c.ring, i);
    PutResidents(c, i, e);
  }

  lemma PutResidents(c: Clock, i: nat, e: Entry)
    requires Shape(c) && i < |c.ring| - 1 && e.key == c.ring[i].key && !e.resident
    ensures Residents(Put(c, i, e).ring) == Residents(c.ring) - {e.key}
  {
    var r := Put(c, i, e).ring;
    forall x | x in Residents(c.ring) && x != e.key ensures x in Residents(r) {
      var j :| 0 <= j < |c.ring| && c.ring[j].resident && c.ring[j].key == x;
      assert r[j] == c.ring[j];
    }
    forall j | 0 <= j < |r| && r[j].resident ensures r[j].key in Residents(c.ring) && r[j].key != e.key {
      assert j != i && r[j] == c.ring[j];
    }
  }

  /** The page just evicted can itself end its test period, so the sweep finds a page
      to drop, whatever else is protected. */
  lemma GhostExpirable(c: Clock, i: nat, g: Clock, maxGhost: nat)
    requires Ok(c) && i < |c.ring| - 1 && Is(c.ring[i], ResidentCold) && c.ring[i].status == Test
    requires g == Put(c, i, c.ring[i].(resident := false, locked := true)).(nCold := c.nCold - 1, nGhost := c.nGhost + 1)
    requires Ok(g)
    ensures TestSweep(g, |g.ring|).nGhost == c.nGhost
  {
    hide TestSweep;
    AheadAll(g.ring, g.test, i, Expirable);
    TestSweepRemovesOne(g, |g.ring|);
  }

  /** HAND_cold passes one page: the key of the victim, if this is one */
  function ColdStep(c: Clock, maxGhost: nat): (r: (Clock, Option<Key>))
    requires Ok(c) && Unlocked(c.ring)
    ensures r.1.Some? ==> Yields(c, r.0, r.1.value, maxGhost)
    ensures r.1.None? ==> Evolves(c, r.0)
    ensures var e := c.ring[c.cold];
      r.1 == if e.resident && (e.status == Cold || e.status == Test) && !e.locked && !e.refd then Some(e.key) else None
  {
    var i := c.cold;
    var e := c.ring[i];
    var c1 := c.(cold := Next(c, i));
    MoveOk(c, c1);
    if !Is(e, ResidentCold) then (c1, None)
    else if e.locked || e.refd then
      EvolvesTrans(c, c1, SecondChance(c1, i));
      (SecondChance(c1, i), None)
    else
      YieldsTrans(c, c1, Evict(c1, i, maxGhost), e.key, maxGhost);
      (Evict(c1, i, maxGhost), Some(e.key))
  }

  // ----------------------------------------------- a cold page is left to look for

  /** A hot page that HAND_hot turns cold when it comes by */
  predicate Coolable(e: Entry) { e.status == Hot && e.resident && !e.locked && !e.refd }

  lemma HotStepAt(c: Clock, i: nat)
    requires Ok(c) && i < |c.ring| && Coolable(c.ring[i])
    ensures var (r, o) := HotStep(c); var j := if o == Dropped && i > c.hot then i - 1 else i;
      && (i == c.hot ==> o == Cooled)
      && (o == Cooled ==> HasFree(r.ring))
      && (o != Cooled ==> j < |r.ring| && r.ring[j] == c.ring[i])
  {
    hide Count, Keys, Residents, Unlocked, KeepsProtected, Busy, Counted;
    var h := c.hot;
    var e, c1 := c.ring[h], c.(hot := Next(c, h));
    if e.status == Hot && !e.locked && !e.refd {
      assert Free(HotStep(c).0.ring[h]);
    }
  }

  /** The sweep of HAND_hot turns a page cold if one that it can turn cold is before the place where it stops. */
  lemma {:induction false} HotSweepCools(c: Clock, d: Option<nat>, i: nat)
    requires Ok(c) && i < |c.ring| && Coolable(c.ring[i])
    requires d.Some? ==> Steps(|c.ring|, c.hot, i) < d.value
    ensures HotSweep(c, d).1 && HasFree(HotSweep(c, d).0.ring)
    decreases if d.None? then 1 else 0, if d.None? then |c.ring| - c.hot else d.value
  {
    hide Ok, HotStep, HasFree;
    assert c.hot < |c.ring| by { InRing(c); }
    HotStepAt(c, i);
    var (c1, o) := HotStep(c);
    if o != Cooled {
      HotSweepCools(c1, if o == Tracked then Track(d, |c.ring| - 1) else Dec(d), if o == Dropped && i > c.hot then i - 1 else i);
    }
  }

  lemma InRing(c: Clock)
    requires Ok(c)
    ensures c.hot < |c.ring| && c.cold < |c.ring| && c.test < |c.ring|
  {
  }

  lemma RescueTargets(c: Clock, i: nat)
    requires Ok(c) && Unlocked(c.ring) && Count(c.ring, LockedCold) <= 1 && HasTarget(c.ring) && i < |c.ring| - 1
    requires Is(c.ring[i], ResidentCold) && (c.ring[i].locked || c.ring[i].refd)
    ensures HasTarget(Rescue(c, i).ring)
  {
    hide Count, Keys, Residents, KeepsProtected, Busy, HotSweep, HotForce;
    var e, c1 := Rescued(c.ring[i]), Spare(c, i);
    var r := Rescue(c, i);
    if e.status != Hot {
      if c.ring[i].locked { assert r.ring == c.ring; } else { assert Target(r.ring[i]); }
    } else if !e.locked {
      HotSweepCools(c1, None, i);
      FreeIsTarget(HotSweep(c1, None).0.ring);
    } else {
      AllFree(r);
    }
  }

  lemma FreeIsTarget(ring: seq<Entry>)
    requires HasFree(ring)
    ensures HasTarget(ring)
  {
    var i :| 0 <= i < |ring| && Free(ring[i]);
    assert Target(ring[i]);
  }

  /** Without a locked cold page every cold page is one to look for. */
  lemma AllFree(c: Clock)
    requires Ok(c) && Count(c.ring, LockedCold) == 0 && c.nCold > 0
    ensures HasTarget(c.ring)
  {
    hide Count;
    CountPositive(c.ring, ResidentCold);
    CountPositive(c.ring, LockedCold);
    var i :| 0 <= i < |c.ring| && Is(c.ring[i], ResidentCold);
    assert !Is(c.ring[i], LockedCold);
    assert Target(c.ring[i]);
  }

  lemma MovedTargets(c: Clock, j: nat)
    requires Ok(c) && j < |c.ring| - 1 && HasTarget(c.ring)
    ensures HasTarget(MoveToHead(c, j).ring)
  {
    hide Count, Counted, Settled;
    var i :| 0 <= i < |c.ring| && Target(c.ring[i]);
    MoveMembers(c, j);
    assert c.ring[i] in MoveToHead(c, j).ring;
  }

  /** A turn that finds no victim leaves what the search needs. */
  lemma ColdStepKeeps(c: Clock, maxGhost: nat)
    requires Ok(c) && Reclaimable(c.ring) && HasTarget(c.ring) && ColdStep(c, maxGhost).1.None?
    ensures Reclaimable(ColdStep(c, maxGhost).0.ring) && HasTarget(ColdStep(c, maxGhost).0.ring)
  {
    hide Count, Keys, Residents, KeepsProtected, Busy, HasTarget, Unlocked, Rescue;
    var i := c.cold;
    var c1 := c.(cold := Next(c, i));
    if Is(c.ring[i], ResidentCold) {
      MoveOk(c, c1);
      RescueTargets(c1, i);
      MovedTargets(Rescue(c1, i), IndexOf(Rescue(c1, i).ring, c.ring[i].key));
    }
  }

  // ------------------------------------------------------- how far a target is

  /** Where the page at `j` was before the page under the hand moved to the list head */
  function Origin(c: Clock, j: nat): nat {
    if j < c.cold || j == |c.ring| - 1 then j else if j == |c.ring| - 2 then c.cold else j + 1
  }

  /** The page under the hand moves to the list head and becomes `e`. */
  ghost predicate Moved(c: Clock, r: Clock, e: Entry) {
    var i, n := c.cold, |c.ring|;
    && |r.ring| == n && i < n - 1 && r.cold == (if i == n - 2 then n - 1 else i)
    && (forall j :: 0 <= j < n && j != n - 2 ==> r.ring[j] == c.ring[Origin(c, j)])
    && r.ring[n - 2] == e
  }

  lemma MovedBy(c: Clock, e: Entry)
    requires |c.ring| > 1 && c.cold < |c.ring| - 1
    ensures Moved(c, MoveToHead(Put(c.(cold := Next(c, c.cold)), c.cold, e), c.cold), e)
  {
  }

  lemma OnlyIndex(c: Clock, i: nat)
    requires Shape(c) && i < |c.ring| - 1
    ensures c.ring[i].key in Keys(c.ring) && IndexOf(c.ring, c.ring[i].key) == i
  {
    InSets(c.ring, i);
  }

  /** A page that is no target is passed, or, locked with its test period over, moved to the list head as it is. */
  lemma NoTarget(c: Clock, maxGhost: nat)
    requires Ok(c) && Unlocked(c.ring) && !Target(c.ring[c.cold])
    ensures var r := ColdStep(c, maxGhost);
      && r.1.None?
      && if Is(c.ring[c.cold], ResidentCold) then Moved(c, r.0, c.ring[c.cold]) else r.0 == c.(cold := Next(c, c.cold))
  {
    hide Count, Keys, Residents, KeepsProtected, Busy, Unlocked, IndexOf, MoveToHead;
    var i := c.cold;
    var c1 := c.(cold := Next(c, i));
    if Is(c.ring[i], ResidentCold) {
      assert c.ring[i := c.ring[i]] == c.ring;
      assert Rescue(c1, i) == c1;
      OnlyIndex(c1, i);
      MovedBy(c, c.ring[i]);
    }
  }

  /** A locked cold page before the list head, other than the last */
  ghost predicate OneMoreTurn(c: Clock) {
    exists s :: c.cold <= s < |c.ring| - 2 && Is(c.ring[s], LockedCold)
  }

  /** The turns it takes to get to position `f`, if no target comes first */
  ghost function TurnsTo(c: Clock, f: nat): int {
    if c.cold <= f then f - c.cold else |c.ring| - c.cold + (if OneMoreTurn(c) then 1 else 0) + f
  }

  /** A target is fewer than `k` turns away. */
  ghost predicate Near(c: Clock, k: nat) {
    exists f :: 0 <= f < |c.ring| && Target(c.ring[f]) && TurnsTo(c, f) < k
  }

  lemma NearAll(c: Clock)
    requires c.cold < |c.ring| && HasTarget(c.ring)
    ensures Near(c, 2 * |c.ring| + 1)
  {
    var f :| 0 <= f < |c.ring| && Target(c.ring[f]);
    assert TurnsTo(c, f) < 2 * |c.ring| + 1;
  }

  lemma NearHas(c: Clock, k: nat)
    requires Near(c, k)
    ensures HasTarget(c.ring)
  {
  }

  lemma AtMostOne(s: seq<Entry>, i: nat, j: nat)
    requires Count(s, LockedCold) <= 1 && i < j < |s|
    ensures !(Is(s[i], LockedCold) && Is(s[j], LockedCold))
  {
    CountSplit(s, j, LockedCold);
    if Is(s[i], LockedCold) {
      CountSplit(s[..j], i, LockedCold);
      assert s[..j][i] == s[i];
    }
  }

  /** Every turn at a page that is no target brings one nearer, if at most one cold page is locked. */
  lemma Nearer(c: Clock, r: Clock, k: nat)
    requires Shape(c) && Count(c.ring, LockedCold) <= 1 && Near(c, k) && !Target(c.ring[c.cold])
    requires if Is(c.ring[c.cold], ResidentCold) then Moved(c, r, c.ring[c.cold]) else r == c.(cold := Next(c, c.cold))
    ensures k > 1 && Near(r, k - 1)
  {
    hide Count;
    var n := |c.ring|;
    var f :| 0 <= f < n && Target(c.ring[f]) && TurnsTo(c, f) < k;
    if !Is(c.ring[c.cold], ResidentCold) {
      PassTurns(c, r, f);
      assert Target(r.ring[f]);
    } else {
      MoveTurns(c, r, f);
    }
  }

  lemma PassTurns(c: Clock, r: Clock, f: nat)
    requires c.cold < |c.ring| && f < |c.ring| && f != c.cold && r == c.(cold := Next(c, c.cold))
    ensures 0 <= TurnsTo(r, f) < TurnsTo(c, f)
  {
    if c.cold < |c.ring| - 1 && OneMoreTurn(r) {
      var s :| r.cold <= s < |r.ring| - 2 && Is(r.ring[s], LockedCold);
      assert OneMoreTurn(c);
    }
  }

  lemma MoveTurns(c: Clock, r: Clock, f: nat)
    requires Shape(c) && Count(c.ring, LockedCold) <= 1 && f < |c.ring| && Target(c.ring[f])
    requires Is(c.ring[c.cold], LockedCold) && Moved(c, r, c.ring[c.cold]) && f != c.cold
    ensures var g := if f < c.cold then f else f - 1; g < |r.ring| && Target(r.ring[g]) && 0 <= TurnsTo(r, g) < TurnsTo(c, f)
  {
    hide Count;
    var g := if f < c.cold then f else f - 1;
    assert r.ring[g] == c.ring[Origin(c, g)];
    if c.cold < |c.ring| - 2 {
      assert OneMoreTurn(c);
      NoOther(c, r);
    }
  }

  lemma NoOther(c: Clock, r: Clock)
    requires Shape(c) && Count(c.ring, LockedCold) <= 1
    requires Is(c.ring[c.cold], LockedCold) && Moved(c, r, c.ring[c.cold])
    ensures !OneMoreTurn(r)
  {
    hide Count;
    if s :| r.cold <= s < |r.ring| - 2 && Is(r.ring[s], LockedCold) {
      assert r.ring[s] == c.ring[Origin(c, s)];
      AtMostOne(c.ring, c.cold, s + 1);
    }
  }

  // ------------------------------------------------------------- the search

  lemma ColdProgress(c: Clock, k: nat, maxGhost: nat)
    requires Ok(c) && Reclaimable(c.ring) && Near(c, k) && ColdStep(c, maxGhost).1.None?
    ensures var c1 := ColdStep(c, maxGhost).0;
      && Reclaimable(c1.ring)
      && Count(c1.ring, Referenced) <= Count(c.ring, Referenced) && Count(c1.ring, LockedTest) <= Count(c.ring, LockedTest)
      && if Target(c.ring[c.cold])
         then && Near(c1, 2 * |c1.ring| + 1)
              && (|| Count(c1.ring, Referenced) < Count(c.ring, Referenced)
                  || Count(c1.ring, LockedTest) < Count(c.ring, LockedTest))
         else k > 1 && Near(c1, k - 1)
  {
    hide Count, Keys, Residents, KeepsProtected, Busy, HasTarget, Unlocked, SecondChance, Near, Counted, Settled;
    NearHas(c, k);
    ColdStepKeeps(c, maxGhost);
    var c1 := ColdStep(c, maxGhost).0;
    if Target(c.ring[c.cold]) {
      NearAll(c1);
    } else {
      NoTarget(c, maxGhost);
      Nearer(c, c1, k);
    }
  }

  /** The loop of `run_hand_cold`: a target is fewer than `k` turns away. */
  function ColdSweep(c: Clock, k: nat, maxGhost: nat): (r: (Clock, Key))
    requires Ok(c) && Reclaimable(c.ring) && Near(c, k)
    ensures Yields(c, r.0, r.1, maxGhost)
    decreases Count(c.ring, Referenced), Count(c.ring, LockedTest), k
  {
    var (c1, victim) := ColdStep(c, maxGhost);
    if victim.Some? then (c1, victim.value)
    else
      ColdProgress(c, k, maxGhost);
      var r := ColdSweep(c1, if Target(c.ring[c.cold]) then 2 * |c1.ring| + 1 else k - 1, maxGhost);
      YieldsTrans(c, c1, r.0, r.1, maxGhost);
      r
  }

  /** The search starts with a cold page to look for. */
  lemma SearchStarts(c: Clock)
    requires Ok(c) && Reclaimable(c.ring)
    ensures var c0 := if c.nCold == 0 then RunHandHot(c, true) else c;
      Reclaimable(c0.ring) && Near(c0, 2 * |c0.ring| + 1)
  {
    hide Count, Keys, Residents, KeepsProtected, Busy, Unlocked, HotSweep, HotForce, HasTarget, Near;
    var c0 := if c.nCold == 0 then RunHandHot(c, true) else c;
    if c.nCold == 0 {
      NoneLocked(c);
      AllFree(c0);
    }
    NearAll(c0);
  }

  lemma NoneLocked(c: Clock)
    requires Ok(c) && c.nCold == 0
    ensures Count(c.ring, LockedCold) == 0
  {
    CountPositive(c.ring, ResidentCold);
    CountPositive(c.ring, LockedCold);
    forall i | 0 <= i < |c.ring| ensures !Is(c.ring[i], LockedCold) {
      assert !Is(c.ring[i], ResidentCold);
    }
  }

  /** `run_hand_cold`: the clock after the search, and the page that gave up its buffer */
  function RunHandCold(c: Clock, maxGhost: nat): (r: (Clock, Key))
    requires Ok(c) && Reclaimable(c.ring)
    ensures Yields(c, r.0, r.1, maxGhost)
  {
    var c0 := if c.nCold == 0 then RunHandHot(c, true) else (MoveOk(c, c); c);
    SearchStarts(c);
    var r := ColdSweep(c0, 2 * |c0.ring| + 1, maxGhost);
    YieldsTrans(c, c0, r.0, r.1, maxGhost);
    r
  }
}
