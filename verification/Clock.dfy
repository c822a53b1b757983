/** The CLOCK-Pro replacement clock (section 3 of the CLOCK-Pro paper, USENIX ATC 2005)
    as a state machine over values: the ring as a sequence closed by the End page, the
    three hands as indices into it, and the three counters the source keeps. */
module ClockModel {

  datatype Status = Hot | Cold | Test | ProtectedTest | End

  datatype Key = Key(scope: nat, id: nat)

  datatype Entry = Entry(key: Key, status: Status, resident: bool, refd: bool, locked: bool)

  datatype Clock = Clock(ring: seq<Entry>, hot: nat, cold: nat, test: nat,
                         nHot: int, nCold: int, nGhost: int)

  datatype Option<T> = None | Some(value: T)

  // ------------------------------------------------------------------ counting

  /** What the counters count, the reference bits, and the cold pages that are locked, in their test period or not */
  datatype Kind = HotPage | ResidentCold | NonResident | Referenced | LockedCold | LockedTest

  predicate Is(e: Entry, k: Kind) {
    match k
    case HotPage => e.resident && e.status == Hot
    case ResidentCold => e.resident && (e.status == Cold || e.status == Test)
    case NonResident => !e.resident && e.status != End
    case Referenced => e.refd
    case LockedCold => e.resident && (e.status == Cold || e.status == Test) && e.locked
    case LockedTest => e.resident && e.status == Test && e.locked
  }

  function Bit(e: Entry, k: Kind): nat { if Is(e, k) then 1 else 0 }

  function Count(s: seq<Entry>, k: Kind): nat {
    if s == [] then 0 else Count(s[..|s| - 1], k) + Bit(s[|s| - 1], k)
  }

  lemma {:induction false} CountConcat(a: seq<Entry>, b: seq<Entry>, k: Kind)
    ensures Count(a + b, k) == Count(a, k) + Count(b, k)
  {
    if b == [] {
      assert a + b == a;
    } else {
      assert (a + b)[..|a + b| - 1] == a + b[..|b| - 1];
      CountConcat(a, b[..|b| - 1], k);
    }
  }

  lemma CountOne(e: Entry, k: Kind)
    ensures Count([e], k) == Bit(e, k)
  {
    assert [e][..0] == [];
  }

  lemma CountSplit(s: seq<Entry>, i: nat, k: Kind)
    requires i < |s|
    ensures Count(s, k) == Count(s[..i], k) + Bit(s[i], k) + Count(s[i + 1..], k)
  {
    assert s == s[..i] + [s[i]] + s[i + 1..];
    CountConcat(s[..i] + [s[i]], s[i + 1..], k);
    CountConcat(s[..i], [s[i]], k);
    CountOne(s[i], k);
  }

  lemma CountUpdate(s: seq<Entry>, i: nat, e: Entry, k: Kind)
    requires i < |s|
    ensures Count(s[i := e], k) == Count(s, k) - Bit(s[i], k) + Bit(e, k)
  {
    CountSplit(s, i, k);
    CountSplit(s[i := e], i, k);
    assert s[i := e][..i] == s[..i] && s[i := e][i + 1..] == s[i + 1..];
  }

  lemma CountRemove(s: seq<Entry>, i: nat, k: Kind)
    requires i < |s|
    ensures Count(s[..i] + s[i + 1..], k) == Count(s, k) - Bit(s[i], k)
  {
    CountSplit(s, i, k);
    CountConcat(s[..i], s[i + 1..], k);
  }

  lemma CountInsert(s: seq<Entry>, i: nat, e: Entry, k: Kind)
    requires i <= |s|
    ensures Count(s[..i] + [e] + s[i..], k) == Count(s, k) + Bit(e, k)
  {
    assert s == s[..i] + s[i..];
    CountConcat(s[..i], s[i..], k);
    CountConcat(s[..i] + [e], s[i..], k);
    CountConcat(s[..i], [e], k);
    CountOne(e, k);
  }

  lemma {:induction false} CountPositive(s: seq<Entry>, k: Kind)
    ensures Count(s, k) > 0 <==> exists i :: 0 <= i < |s| && Is(s[i], k)
  {
    if s != [] {
      CountPositive(s[..|s| - 1], k);
      if Count(s, k) > 0 && !Is(s[|s| - 1], k) {
        var i :| 0 <= i < |s| - 1 && Is(s[..|s| - 1][i], k);
        assert Is(s[i], k);
      }
      if i :| 0 <= i < |s| && Is(s[i], k) {
        assert i < |s| - 1 ==> Is(s[..|s| - 1][i], k);
      }
    }
  }

  // ----------------------------------------------------------------- invariant

  /** The End page closes the ring, no key occurs twice, and the hands are inside */
  ghost predicate Shape(c: Clock) {
    && |c.ring| > 0 && c.ring[|c.ring| - 1].status == End && !c.ring[|c.ring| - 1].resident
    && (forall i :: 0 <= i < |c.ring| - 1 ==> c.ring[i].status != End)
    && (forall i, j :: 0 <= i < j < |c.ring| - 1 ==> c.ring[i].key != c.ring[j].key)
    && c.hot < |c.ring| && c.cold < |c.ring| && c.test < |c.ring|
  }

  /** Hot and Cold pages are resident, ProtectedTest pages are not, and a page without
      a buffer is locked exclusively */
  ghost predicate Settled(ring: seq<Entry>) {
    forall i :: 0 <= i < |ring| - 1 ==>
      && (ring[i].status == Hot || ring[i].status == Cold ==> ring[i].resident)
      && (ring[i].status == ProtectedTest ==> !ring[i].resident)
      && (!ring[i].resident ==> ring[i].locked)
  }

  /** The counters are the true counts */
  ghost predicate Counted(c: Clock) {
    && c.nHot == Count(c.ring, HotPage)
    && c.nCold == Count(c.ring, ResidentCold)
    && c.nGhost == Count(c.ring, NonResident)
  }

  ghost predicate Ok(c: Clock) {
    Shape(c) && Settled(c.ring) && Counted(c)
  }

  ghost predicate Unlocked(ring: seq<Entry>) {
    exists i :: 0 <= i < |ring| && ring[i].resident && !ring[i].locked
  }

  /** A cold page that can become the victim, at once or when its reference bit is cleared */
  predicate Free(e: Entry) { Is(e, ResidentCold) && !e.locked }

  ghost predicate HasFree(ring: seq<Entry>) {
    exists i :: 0 <= i < |ring| && Free(ring[i])
  }

  /** A cold page that HAND_cold does something about: it is the victim, loses its reference bit, or turns hot. */
  predicate Target(e: Entry) { Is(e, ResidentCold) && (!e.locked || e.status == Test) }

  ghost predicate HasTarget(ring: seq<Entry>) {
    exists i :: 0 <= i < |ring| && Target(ring[i])
  }

  /** What a victim search needs to end: some resident page is not locked, at most one cold page is, and not the only
      cold page if its test period is over */
  ghost predicate Reclaimable(ring: seq<Entry>) {
    && Unlocked(ring) && Count(ring, LockedCold) <= 1
    && (Count(ring, ResidentCold) > 0 ==> HasTarget(ring))
  }

  function Residents(ring: seq<Entry>): set<Key> {
    set i | 0 <= i < |ring| && ring[i].resident :: ring[i].key
  }

  function Keys(ring: seq<Entry>): set<Key> {
    set i | 0 <= i < |ring| - 1 :: ring[i].key
  }

  /** The pages in use: resident and locked, or protected for a fault */
  predicate InUse(e: Entry) {
    e.status == ProtectedTest || (e.resident && e.locked)
  }

  function Busy(ring: seq<Entry>): set<Key> {
    set i | 0 <= i < |ring| && InUse(ring[i]) :: ring[i].key
  }

  // ---------------------------------------------------------------- primitives

  function Next(c: Clock, h: nat): (r: nat)
    requires h < |c.ring|
    ensures r < |c.ring|
  {
    if h + 1 == |c.ring| then 0 else h + 1
  }

  /** Overwrites the entry at `i`, which keeps its key. */
  function Put(c: Clock, i: nat, e: Entry): (r: Clock)
    requires i < |c.ring|
  {
    c.(ring := c.ring[i := e])
  }

  function Shift(h: nat, i: nat): nat { if h > i then h - 1 else h }

  /** `remove_page_from_list`: a hand on the page moves to the next one. */
  function RemoveAt(c: Clock, i: nat): (r: Clock)
    requires i < |c.ring|
  {
    c.(ring := c.ring[..i] + c.ring[i + 1..],
       hot := Shift(c.hot, i), cold := Shift(c.cold, i), test := Shift(c.test, i))
  }

  /** `add_page_to_list`: the list head is the place just before the End page. */
  function Append(c: Clock, e: Entry): (r: Clock)
    requires |c.ring| > 0
  {
    var n := |c.ring|;
    c.(ring := c.ring[..n - 1] + [e] + c.ring[n - 1..],
       hot := if c.hot == n - 1 then n else c.hot,
       cold := if c.cold == n - 1 then n else c.cold,
       test := if c.test == n - 1 then n else c.test)
  }

  lemma PutOk(c: Clock, i: nat, e: Entry)
    requires Shape(c) && i < |c.ring| - 1 && e.key == c.ring[i].key && e.status != End
    ensures Shape(Put(c, i, e))
    ensures forall k :: Count(Put(c, i, e).ring, k) == Count(c.ring, k) - Bit(c.ring[i], k) + Bit(e, k)
    ensures Keys(Put(c, i, e).ring) == Keys(c.ring)
    ensures e.resident == c.ring[i].resident ==> Residents(Put(c, i, e).ring) == Residents(c.ring)
  {
    forall k ensures Count(Put(c, i, e).ring, k) == Count(c.ring, k) - Bit(c.ring[i], k) + Bit(e, k) {
      CountUpdate(c.ring, i, e, k);
    }
    var r := Put(c, i, e).ring;
    assert forall j :: 0 <= j < |r| ==> r[j].key == c.ring[j].key;
    if e.resident == c.ring[i].resident {
      assert forall j :: 0 <= j < |r| ==> r[j].resident == c.ring[j].resident;
    }
  }

  lemma RemoveShape(c: Clock, i: nat)
    requires Shape(c) && i < |c.ring| - 1
    ensures Shape(RemoveAt(c, i))
    ensures var r := RemoveAt(c, i).ring;
            |r| == |c.ring| - 1 && forall j :: 0 <= j < |r| ==> r[j] == c.ring[if j < i then j else j + 1]
  {
  }

  lemma RemoveKeys(c: Clock, i: nat)
    requires Shape(c) && i < |c.ring| - 1
    ensures Keys(RemoveAt(c, i).ring) == Keys(c.ring) - {c.ring[i].key}
  {
    RemoveShape(c, i);
    var r := RemoveAt(c, i).ring;
    forall x | x in Keys(c.ring) && x != c.ring[i].key ensures x in Keys(r) {
      var j :| 0 <= j < |c.ring| - 1 && c.ring[j].key == x;
      assert r[Shift(j, i)] == c.ring[j];
    }
    forall j | 0 <= j < |r| - 1 ensures r[j].key in Keys(c.ring) && r[j].key != c.ring[i].key {
      assert r[j] == c.ring[if j < i then j else j + 1];
    }
  }

  lemma RemoveResidents(c: Clock, i: nat)
    requires Shape(c) && i < |c.ring| - 1
    ensures Residents(RemoveAt(c, i).ring) == Residents(c.ring) - (if c.ring[i].resident then {c.ring[i].key} else {})
  {
    RemoveShape(c, i);
    var r := RemoveAt(c, i).ring;
    forall x | x in Residents(c.ring) && (c.ring[i].resident ==> x != c.ring[i].key) ensures x in Residents(r) {
      var j :| 0 <= j < |c.ring| && c.ring[j].resident && c.ring[j].key == x;
      assert r[Shift(j, i)] == c.ring[j];
    }
    forall j | 0 <= j < |r| && r[j].resident
      ensures r[j].key in Residents(c.ring) && r[j].key != c.ring[i].key
    {
      assert r[j] == c.ring[if j < i then j else j + 1];
    }
  }

  lemma RemoveOk(c: Clock, i: nat)
    requires Shape(c) && i < |c.ring| - 1
    ensures Shape(RemoveAt(c, i))
    ensures forall k :: Count(RemoveAt(c, i).ring, k) == Count(c.ring, k) - Bit(c.ring[i], k)
    ensures Keys(RemoveAt(c, i).ring) == Keys(c.ring) - {c.ring[i].key}
    ensures Residents(RemoveAt(c, i).ring) == Residents(c.ring) - (if c.ring[i].resident then {c.ring[i].key} else {})
  {
    hide Shape, Count, Keys, Residents;
    RemoveShape(c, i);
    RemoveKeys(c, i);
    RemoveResidents(c, i);
    forall k ensures Count(RemoveAt(c, i).ring, k) == Count(c.ring, k) - Bit(c.ring[i], k) {
      CountRemove(c.ring, i, k);
    }
  }

  lemma AppendShape(c: Clock, e: Entry)
    requires Shape(c) && e.status != End && e.key !in Keys(c.ring)
    ensures Shape(Append(c, e))
    ensures var r, n := Append(c, e).ring, |c.ring|;
            |r| == n + 1 && forall j :: 0 <= j <= n ==> r[j] == if j < n - 1 then c.ring[j] else if j == n - 1 then e else c.ring[n - 1]
  {
    assert forall j :: 0 <= j < |c.ring| - 1 ==> c.ring[j].key in Keys(c.ring);
  }

  lemma AppendOk(c: Clock, e: Entry)
    requires Shape(c) && e.status != End && e.key !in Keys(c.ring)
    ensures Shape(Append(c, e))
    ensures forall k :: Count(Append(c, e).ring, k) == Count(c.ring, k) + Bit(e, k)
    ensures Keys(Append(c, e).ring) == Keys(c.ring) + {e.key}
    ensures Residents(Append(c, e).ring) == Residents(c.ring) + (if e.resident then {e.key} else {})
  {
    hide Count;
    var n := |c.ring|;
    forall k ensures Count(Append(c, e).ring, k) == Count(c.ring, k) + Bit(e, k) {
      CountInsert(c.ring, n - 1, e, k);
    }
    AppendShape(c, e);
    hide Append, Shape;
    var r := Append(c, e).ring;
    assert r[n - 1] == e;
    forall x | x in Keys(c.ring) ensures x in Keys(r) {
      var j :| 0 <= j < n - 1 && c.ring[j].key == x;
      assert r[j].key == x;
    }
    forall x | x in Residents(c.ring) ensures x in Residents(r) {
      var j :| 0 <= j < n && c.ring[j].resident && c.ring[j].key == x;
      assert r[j] == c.ring[j];
    }
  }

  // ------------------------------------------------------------------- evolving

  /** What every move of a hand keeps: the invariant, the resident pages, and the rest
      can only shrink. */
  ghost predicate Evolves(c: Clock, r: Clock) {
    && Ok(r)
    && Residents(r.ring) == Residents(c.ring)
    && Keys(r.ring) <= Keys(c.ring)
    && Count(r.ring, Referenced) <= Count(c.ring, Referenced)
    && r.nHot + r.nCold == c.nHot + c.nCold
    && r.nGhost <= c.nGhost
    && (Unlocked(c.ring) ==> Unlocked(r.ring))
    && Count(r.ring, LockedCold) <= Count(c.ring, LockedCold) && Count(r.ring, LockedTest) <= Count(c.ring, LockedTest)
    && KeepsProtected(c.ring, r.ring)
    && Busy(r.ring) <= Busy(c.ring)
  }

  lemma PutBusy(c: Clock, i: nat, e: Entry)
    requires i < |c.ring| && e.key == c.ring[i].key && (InUse(e) ==> InUse(c.ring[i]))
    ensures Busy(Put(c, i, e).ring) <= Busy(c.ring)
  {
    var r := Put(c, i, e).ring;
    forall j | 0 <= j < |r| && InUse(r[j]) ensures r[j].key in Busy(c.ring) {
      assert InUse(c.ring[j]) && c.ring[j].key == r[j].key;
    }
  }

  lemma RemoveBusy(c: Clock, i: nat)
    requires i < |c.ring|
    ensures Busy(RemoveAt(c, i).ring) <= Busy(c.ring)
  {
    var r := RemoveAt(c, i).ring;
    forall j | 0 <= j < |r| && InUse(r[j]) ensures r[j].key in Busy(c.ring) {
      assert r[j] == c.ring[if j < i then j else j + 1];
    }
  }

  lemma MembersBusy(s: seq<Entry>, r: seq<Entry>)
    requires forall x :: x in r ==> x in s
    ensures Busy(r) <= Busy(s)
  {
    forall j | 0 <= j < |r| && InUse(r[j]) ensures r[j].key in Busy(s) {
      assert r[j] in s;
    }
  }

  /** A page protected for an ongoing fault stays in the clock as it is */
  ghost predicate KeepsProtected(ring: seq<Entry>, r: seq<Entry>) {
    forall e :: e in ring && e.status == ProtectedTest ==> e in r
  }

  lemma PutKeepsProtected(c: Clock, i: nat, e: Entry)
    requires i < |c.ring| && c.ring[i].status != ProtectedTest
    ensures KeepsProtected(c.ring, Put(c, i, e).ring)
  {
    var r := Put(c, i, e).ring;
    forall x | x in c.ring && x.status == ProtectedTest ensures x in r {
      var j :| 0 <= j < |c.ring| && c.ring[j] == x;
      assert r[j] == x;
    }
  }

  lemma RemoveKeepsProtected(c: Clock, i: nat)
    requires i < |c.ring| && c.ring[i].status != ProtectedTest
    ensures KeepsProtected(c.ring, RemoveAt(c, i).ring)
  {
    var r := RemoveAt(c, i).ring;
    forall x | x in c.ring && x.status == ProtectedTest ensures x in r {
      var j :| 0 <= j < |c.ring| && c.ring[j] == x;
      assert r[Shift(j, i)] == x;
    }
  }

  /** `handle_hot`: spares a locked or referenced hot page, or turns it cold. */
  function HandleHot(c: Clock, i: nat): (r: (Clock, bool))
    requires i < |c.ring|
  {
    var e := c.ring[i];
    if e.locked then (c, false)
    else if e.refd then (Put(c, i, e.(refd := false)), false)
    else (Put(c, i, e.(status := Test)).(nHot := c.nHot - 1, nCold := c.nCold + 1), true)
  }

  /** A hand meets a cold page: its test period ends, and it leaves the clock if it
      has no buffer. */
  function Expire(c: Clock, i: nat): (r: Clock)
    requires i < |c.ring|
  {
    var e := c.ring[i];
    if e.resident then Put(c, i, e.(status := Cold))
    else RemoveAt(c, i).(nGhost := c.nGhost - 1)
  }

  lemma PutKeepsUnlocked(c: Clock, i: nat, e: Entry)
    requires i < |c.ring| && Unlocked(c.ring)
    requires e.resident == c.ring[i].resident && e.locked == c.ring[i].locked
    ensures Unlocked(Put(c, i, e).ring)
  {
    var r := Put(c, i, e).ring;
    var j :| 0 <= j < |c.ring| && c.ring[j].resident && !c.ring[j].locked;
    assert r[j].resident && !r[j].locked;
  }

  lemma RemoveKeepsUnlocked(c: Clock, i: nat)
    requires Shape(c) && i < |c.ring| - 1 && Unlocked(c.ring) && !c.ring[i].resident
    ensures Unlocked(RemoveAt(c, i).ring)
  {
    RemoveShape(c, i);
    var r := RemoveAt(c, i).ring;
    var j :| 0 <= j < |c.ring| && c.ring[j].resident && !c.ring[j].locked;
    assert r[Shift(j, i)] == c.ring[j];
  }

  lemma HandleHotEvolves(c: Clock, i: nat)
    requires Ok(c) && i < |c.ring| - 1 && c.ring[i].status == Hot
    ensures Evolves(c, HandleHot(c, i).0)
    ensures var (r, done) := HandleHot(c, i);
      && |r.ring| == |c.ring| && r.hot == c.hot && r.cold == c.cold
      && (done ==> r.nCold > 0)
      && (!done && !c.ring[i].locked ==> Count(r.ring, Referenced) < Count(c.ring, Referenced))
  {
    hide Count, Keys, Residents, Unlocked, KeepsProtected, Busy;
    var e := c.ring[i];
    var e' := HandleHot(c, i).0.ring[i];
    PutOk(c, i, e');
    PutKeepsProtected(c, i, e');
    PutBusy(c, i, e');
    if Unlocked(c.ring) {
      PutKeepsUnlocked(c, i, e');
    }
    assert c.ring[i := e] == c.ring;
    assert forall k :: Bit(e, k) >= 0;
  }

  lemma ExpireEvolves(c: Clock, i: nat)
    requires Ok(c) && i < |c.ring| - 1 && (c.ring[i].status == Cold || c.ring[i].status == Test)
    ensures Evolves(c, Expire(c, i))
    ensures |Expire(c, i).ring| == if c.ring[i].resident then |c.ring| else |c.ring| - 1
  {
    hide Count, Keys, Residents, Unlocked, KeepsProtected, Busy;
    var e := c.ring[i];
    if e.resident {
      PutOk(c, i, e.(status := Cold));
      PutKeepsProtected(c, i, e.(status := Cold));
      PutBusy(c, i, e.(status := Cold));
      if Unlocked(c.ring) {
        PutKeepsUnlocked(c, i, e.(status := Cold));
      }
    } else {
      RemoveOk(c, i);
      RemoveShape(c, i);
      RemoveKeepsProtected(c, i);
      RemoveBusy(c, i);
      if Unlocked(c.ring) {
        RemoveKeepsUnlocked(c, i);
      }
    }
  }
}
