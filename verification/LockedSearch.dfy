/**
 * The loop of `run_hand_cold` on any clock with an unlocked page, locked cold pages or not: what a search has done by the
 * time it ends, and when it ends.
 */
module LockedSearch {
  import opened ClockModel
  import opened ClockHands

  /** The loop for `n` turns, or until it has a victim: exactly one page has lost its buffer then, and none before. */
  function Rounds(c: Clock, n: nat, maxGhost: nat): (r: (Clock, Option<Key>))
    requires Ok(c) && Unlocked(c.ring)
    ensures r.1.None? ==> Evolves(c, r.0)
    ensures r.1.Some? ==> Yields(c, r.0, r.1.value, maxGhost)
    decreases n
  {
    if n == 0 then (MoveOk(c, c); (c, None))
    else
      var (c1, victim) := ColdStep(c, maxGhost);
      if victim.Some? then (c1, victim)
      else
        var r := Rounds(c1, n - 1, maxGhost);
        if r.1.None? then (EvolvesTrans(c, c1, r.0); r) else (YieldsTrans(c, c1, r.0, r.1.value, maxGhost); r)
  }

  ghost predicate Ends(c: Clock, maxGhost: nat)
    requires Ok(c) && Unlocked(c.ring)
  {
    exists n: nat :: Rounds(c, n, maxGhost).1.Some?
  }

  lemma OneMore(c: Clock, maxGhost: nat)
    requires Ok(c) && Unlocked(c.ring)
    requires var r := ColdStep(c, maxGhost); r.1.None? ==> Ends(r.0, maxGhost)
    ensures Ends(c, maxGhost)
  {
    hide Ok, Unlocked, ColdStep, Yields;
    var (c1, victim) := ColdStep(c, maxGhost);
    if victim.None? {
      var n: nat :| Rounds(c1, n, maxGhost).1.Some?;
      assert Rounds(c, n + 1, maxGhost).1.Some?;
    } else {
      assert Rounds(c, 1, maxGhost).1.Some?;
    }
  }

  // ------------------------------------------------- at most one locked cold page

  lemma {:induction false} EndsNear(c: Clock, k: nat, maxGhost: nat)
    requires Ok(c) && Reclaimable(c.ring) && Near(c, k)
    ensures Ends(c, maxGhost)
    decreases Count(c.ring, Referenced), Count(c.ring, LockedTest), k
  {
    hide Count, Ok, HasTarget, ColdStep, Near, Unlocked, Ends, Evolves, Yields;
    InRing(c);
    var (c1, victim) := ColdStep(c, maxGhost);
    if victim.None? {
      ColdProgress(c, k, maxGhost);
      assert Evolves(c, c1);
      OkOf(c, c1);
      EndsNear(c1, if Target(c.ring[c.cold]) then 2 * |c1.ring| + 1 else k - 1, maxGhost);
    }
    OneMore(c, maxGhost);
  }

  lemma OkOf(c: Clock, r: Clock)
    requires Evolves(c, r)
    ensures Ok(r)
  {
  }

  /** With nothing for HAND_cold to look for, the next turn changes nothing about that. */
  lemma StaysHopeless(c: Clock, maxGhost: nat)
    requires Ok(c) && Unlocked(c.ring) && !HasTarget(c.ring)
    ensures ColdStep(c, maxGhost).1.None? && !HasTarget(ColdStep(c, maxGhost).0.ring)
  {
    hide Count, Unlocked, ColdStep, Evolves, Yields, Settled, Counted;
    NoTarget(c, maxGhost);
    var r := ColdStep(c, maxGhost).0;
    if Is(c.ring[c.cold], ResidentCold) {
      forall j | 0 <= j < |r.ring| ensures !Target(r.ring[j]) {
        assert r.ring[j] == c.ring[Origin(c, j)];
      }
    }
  }

  lemma {:induction false} NeverFound(c: Clock, n: nat, maxGhost: nat)
    requires Ok(c) && Unlocked(c.ring) && !HasTarget(c.ring)
    ensures Rounds(c, n, maxGhost).1.None?
    decreases n
  {
    hide Count, Ok, Unlocked, ColdStep, Yields, HasTarget;
    if n > 0 {
      StaysHopeless(c, maxGhost);
      NeverFound(ColdStep(c, maxGhost).0, n - 1, maxGhost);
    }
  }

  /**
   * With at most one locked cold page, and whatever HAND_hot does in between, the loop ends if and only if some cold page
   * is unlocked or in its test period.
   */
  lemma OneLockedEndsExactlyWhen(c: Clock, maxGhost: nat)
    requires Ok(c) && Unlocked(c.ring) && Count(c.ring, LockedCold) <= 1
    ensures Ends(c, maxGhost) <==> HasTarget(c.ring)
  {
    hide Count, Unlocked, Rounds, HasTarget;
    if HasTarget(c.ring) {
      NearAll(c);
      EndsNear(c, 2 * |c.ring| + 1, maxGhost);
    } else {
      forall n: nat ensures Rounds(c, n, maxGhost).1.None? { NeverFound(c, n, maxGhost); }
    }
  }

  // --------------------------------------------------- any number of locked pages

  /** A cold page that the hand spares each time */
  predicate Spared(e: Entry) { Is(e, ResidentCold) && e.locked }

  /** No page would turn hot under the hand, which then asks HAND_hot for its actions. */
  ghost predicate Quiet(ring: seq<Entry>) {
    forall i :: 0 <= i < |ring| && Is(ring[i], ResidentCold) && ring[i].status == Test ==>
      !ring[i].locked && !ring[i].refd
  }

  ghost predicate FreeFrom(ring: seq<Entry>, h: nat) {
    exists i :: h <= i < |ring| && Free(ring[i])
  }

  ghost predicate TwoSparedFrom(ring: seq<Entry>, h: nat) {
    exists i, j :: h <= i < j < |ring| && Spared(ring[i]) && Spared(ring[j])
  }

  /** A free page is between the hand and the list head, or one is elsewhere and the hand gets past the list head. */
  ghost predicate CanEnd(c: Clock) {
    FreeFrom(c.ring, c.cold) || (FreeFrom(c.ring, 0) && !TwoSparedFrom(c.ring, c.cold))
  }

  ghost predicate Calm(c: Clock) {
    Ok(c) && Unlocked(c.ring) && Quiet(c.ring)
  }

  /** A turn that is not the last passes a page that is not a resident cold one, or moves it to the list head. */
  lemma QuietStep(c: Clock, maxGhost: nat)
    requires Calm(c)
    ensures var e := c.ring[c.cold]; var (c1, victim) := ColdStep(c, maxGhost);
      && (victim.Some? ==> Free(e))
      && (victim.None? ==>
          && Calm(c1) && Shape(c1) && Count(c1.ring, Referenced) <= Count(c.ring, Referenced)
          && (if Is(e, ResidentCold)
              then Moved(c, c1, if e.locked then e else e.(refd := false))
              else c1 == c.(cold := Next(c, c.cold)))
          && (Free(e) ==> Count(c1.ring, Referenced) < Count(c.ring, Referenced)))
  {
    hide Count, Keys, Residents, KeepsProtected, Busy, Unlocked, IndexOf, MoveToHead, Counted, Settled;
    var i := c.cold;
    var e, c1 := c.ring[i], c.(cold := Next(c, i));
    if Is(e, ResidentCold) && (e.locked || e.refd) {
      var e1 := if e.locked then e else e.(refd := false);
      MoveOk(c, c1);
      assert Rescued(e) == e1;
      OnlyIndex(Put(c1, i, e1), i);
      assert Rescue(c1, i).ring == Put(c1, i, e1).ring;
      MovedBy(c, e1);
      MovedQuiet(c, ColdStep(c, maxGhost).0, e1);
    }
  }

  lemma MovedQuiet(c: Clock, r: Clock, e: Entry)
    requires Quiet(c.ring) && Moved(c, r, e) && (e.status == Test ==> !e.locked && !e.refd)
    ensures Quiet(r.ring)
  {
  }

  // ------------------------------------------------------------------- for ever

  lemma StaysStuck(c: Clock, maxGhost: nat)
    requires Calm(c) && !CanEnd(c)
    ensures var r := ColdStep(c, maxGhost); r.1.None? && Calm(r.0) && !CanEnd(r.0)
  {
    hide Count, ColdStep, Counted, Settled, Evolves, Yields, Unlocked;
    assert !Free(c.ring[c.cold]);
    QuietStep(c, maxGhost);
    var c1 := ColdStep(c, maxGhost).0;
    hide Quiet;
    if Is(c.ring[c.cold], ResidentCold) {
      MovedStuck(c, c1);
    } else if TwoSparedFrom(c.ring, c.cold) {
      var i, j :| c.cold <= i < j < |c.ring| && Spared(c.ring[i]) && Spared(c.ring[j]);
      assert c1.cold <= i;
    }
  }

  lemma MovedStuck(c: Clock, r: Clock)
    requires Shape(c) && Spared(c.ring[c.cold]) && Moved(c, r, c.ring[c.cold]) && !CanEnd(c)
    ensures !CanEnd(r)
  {
    SameOrigin(c, r);
    hide Moved, Shape;
    if TwoSparedFrom(c.ring, c.cold) {
      var i, j :| c.cold <= i < j < |c.ring| && Spared(c.ring[i]) && Spared(c.ring[j]);
      assert r.ring[j - 1] == c.ring[Origin(c, j - 1)];
      assert Spared(r.ring[j - 1]) && Spared(r.ring[|r.ring| - 2]);
    }
  }

  lemma SameOrigin(c: Clock, r: Clock)
    requires Shape(c) && c.cold < |c.ring| - 1 && Moved(c, r, c.ring[c.cold])
    ensures |r.ring| == |c.ring| && c.cold <= r.cold && (c.cold < |c.ring| - 2 ==> r.cold == c.cold)
    ensures forall j :: 0 <= j < |r.ring| ==> r.ring[j] == c.ring[Origin(c, j)]
    ensures !Is(c.ring[|c.ring| - 1], ResidentCold)
  {
  }

  lemma {:induction false} NeverEnds(c: Clock, n: nat, maxGhost: nat)
    requires Calm(c) && !CanEnd(c)
    ensures Rounds(c, n, maxGhost).1.None?
    decreases n
  {
    hide Ok, Unlocked, Quiet, CanEnd, ColdStep, Yields;
    if n > 0 {
      StaysStuck(c, maxGhost);
      NeverEnds(ColdStep(c, maxGhost).0, n - 1, maxGhost);
    }
  }

  // ---------------------------------------------------------------- to the end

  /** With a free page at `f`, not before the hand: reference bits are cleared, or the page comes nearer. */
  lemma {:induction false} EndsAhead(c: Clock, f: nat, maxGhost: nat)
    requires Calm(c) && c.cold <= f < |c.ring| && Free(c.ring[f])
    ensures Ends(c, maxGhost)
    decreases Count(c.ring, Referenced), 0, f - c.cold, 0
  {
    hide Count, ColdStep, Ends, Quiet, Counted, Settled, Evolves, Yields, Unlocked;
    QuietStep(c, maxGhost);
    var (c1, victim) := ColdStep(c, maxGhost);
    if victim.None? {
      var n := |c.ring|;
      if f == c.cold {
        assert Free(c1.ring[n - 2]);
        if f == n - 2 {
          EndsBehind(c1, n - 2, 0, maxGhost);
        } else {
          EndsAhead(c1, n - 2, maxGhost);
        }
      } else if Is(c.ring[c.cold], ResidentCold) {
        assert c1.ring[f - 1] == c.ring[Origin(c, f - 1)];
        EndsAhead(c1, f - 1, maxGhost);
      } else {
        EndsAhead(c1, f, maxGhost);
      }
    }
    OneMore(c, maxGhost);
  }

  lemma MovedRest(c: Clock, r: Clock)
    requires Shape(c) && Spared(c.ring[c.cold]) && Moved(c, r, c.ring[c.cold])
    requires forall i :: c.cold < i < |c.ring| ==> !Is(c.ring[i], ResidentCold)
    ensures forall i :: r.cold <= i < |r.ring| && Is(r.ring[i], ResidentCold) ==> i == |r.ring| - 2 && Spared(r.ring[i])
    ensures forall i :: 0 <= i < c.cold ==> r.ring[i] == c.ring[i]
  {
    assert forall j :: 0 <= j < |r.ring| ==> r.ring[j] == c.ring[Origin(c, j)];
  }

  /** With a free page at `f` behind the hand and no page but `s` to spare ahead, the hand gets past the list head. */
  lemma {:induction false} EndsBehind(c: Clock, f: nat, s: nat, maxGhost: nat)
    requires Calm(c) && f < c.cold < |c.ring| && Free(c.ring[f]) && s < |c.ring| - 1
    requires forall i :: c.cold <= i < |c.ring| && Is(c.ring[i], ResidentCold) ==> i == s && Spared(c.ring[i])
    ensures Ends(c, maxGhost)
    decreases Count(c.ring, Referenced), 1, |c.ring| - c.cold, |c.ring| - s
  {
    hide Count, ColdStep, Ends, Quiet, Counted, Settled, Evolves, Yields, Unlocked;
    QuietStep(c, maxGhost);
    var (c1, victim) := ColdStep(c, maxGhost);
    var n := |c.ring|;
    if Is(c.ring[c.cold], ResidentCold) {
      assert c.ring[c.cold].locked;
      MovedRest(c, c1);
      EndsBehind(c1, f, n - 2, maxGhost);
    } else if c.cold == n - 1 {
      EndsAhead(c1, f, maxGhost);
    } else {
      EndsBehind(c1, f, s, maxGhost);
    }
    OneMore(c, maxGhost);
  }

  /**
   * However many pages are locked, where none would turn hot: the loop ends if and only if a cold page that nobody has
   * locked is between the hand and the list head, or is elsewhere and at most one locked cold page is between the hand
   * and the list head. Each locked page the hand spares goes to the list head, so that with two of them the hand never
   * gets there.
   */
  lemma SearchEndsExactlyWhen(c: Clock, maxGhost: nat)
    requires Ok(c) && Unlocked(c.ring) && Quiet(c.ring)
    ensures Ends(c, maxGhost) <==> CanEnd(c)
  {
    hide Rounds, Quiet, Ok, Unlocked;
    if !CanEnd(c) {
      forall n: nat ensures Rounds(c, n, maxGhost).1.None? {
        NeverEnds(c, n, maxGhost);
      }
    } else if FreeFrom(c.ring, c.cold) {
      var f :| c.cold <= f < |c.ring| && Free(c.ring[f]);
      EndsAhead(c, f, maxGhost);
    } else {
      var f :| 0 <= f < |c.ring| && Free(c.ring[f]);
      BehindBy(c, f, maxGhost);
    }
  }

  lemma BehindBy(c: Clock, f: nat, maxGhost: nat)
    requires Calm(c) && f < |c.ring| && Free(c.ring[f])
    requires !FreeFrom(c.ring, c.cold) && !TwoSparedFrom(c.ring, c.cold)
    ensures Ends(c, maxGhost)
  {
    hide Ends, Quiet, Counted, Settled, Unlocked;
    assert f < c.cold;
    if s :| c.cold <= s < |c.ring| && Spared(c.ring[s]) {
      EndsBehind(c, f, s, maxGhost);
    } else {
      EndsBehind(c, f, 0, maxGhost);
    }
  }

  /** A free cold page is in the ring, and the search goes from one of two locked ones to the other for ever. */
  lemma TwoLockedPages(k: Key, l: Key, m: Key, z: Key, maxGhost: nat)
    requires k != l && l != m && k != m
    ensures var c := Clock([Entry(k, Cold, true, false, false), Entry(l, Cold, true, false, true),
                            Entry(m, Cold, true, false, true), Entry(z, End, false, false, true)], 0, 1, 0, 0, 3, 0);
      Ok(c) && Unlocked(c.ring) && Free(c.ring[0]) && !Ends(c, maxGhost)
  {
    var a, b, d, e := Entry(k, Cold, true, false, false), Entry(l, Cold, true, false, true),
                      Entry(m, Cold, true, false, true), Entry(z, End, false, false, true);
    var c := Clock([a, b, d, e], 0, 1, 0, 0, 3, 0);
    assert forall g :: Count(c.ring, g) == Bit(a, g) + Bit(b, g) + Bit(d, g) + Bit(e, g) by {
      assert c.ring == [a] + [b] + [d] + [e];
      forall g ensures Count(c.ring, g) == Bit(a, g) + Bit(b, g) + Bit(d, g) + Bit(e, g) {
        CountConcat([a] + [b] + [d], [e], g);
        CountConcat([a] + [b], [d], g);
        CountConcat([a], [b], g);
        CountOne(a, g);
        CountOne(b, g);
        CountOne(d, g);
        CountOne(e, g);
      }
    }
    hide Count;
    assert c.ring[0] == a && c.ring[0].resident && !c.ring[0].locked;
    assert Spared(c.ring[1]) && Spared(c.ring[2]);
    SearchEndsExactlyWhen(c, maxGhost);
  }
}
