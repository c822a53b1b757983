/** The page list of `CacheInner` as it is in memory: pages linked both ways through the
    End page, three hands, counters and the page map. The ghost field `view` is the same
    clock as a value, and every method is proved to act on it as the pure clock does. */
module PageRing {
  import opened ClockModel
  import opened ClockHands
  import CacheModel

  /** A page buffer, which moves from page to page */
  class Buffer {
    var bytes: seq<int>
    var dirty: bool

    constructor (bytes: seq<int>)
      ensures this.bytes == bytes && !dirty
    {
      this.bytes, dirty := bytes, false;
    }
  }

  class Page {
    const key: Key
    var prev: Page
    var next: Page
    var status: Status
    var refd: bool
    var locked: bool
    var data: Buffer?

    /** `Page_::new` and `Page_::end`: exclusively locked, linked to itself */
    constructor (key: Key, status: Status, data: Buffer?)
      ensures this.key == key && this.status == status && this.data == data
      ensures !refd && locked && prev == this && next == this
    {
      this.key, this.status, this.data := key, status, data;
      refd, locked := false, true;
      prev, next := this, this;
    }

    ghost function Snapshot(): Entry
      reads this`status, this`refd, this`locked, this`data
    {
      Entry(key, status, data != null, refd, locked)
    }
  }

  /** The pages of `r` say what the entries `es` say */
  ghost predicate Mirror(r: seq<Page>, es: seq<Entry>)
    reads r`status, r`refd, r`locked, r`data
  {
    |r| == |es| && forall i :: 0 <= i < |r| ==> r[i].Snapshot() == es[i]
  }

  lemma MirrorRemove(r: seq<Page>, es: seq<Entry>, i: nat)
    requires Mirror(r, es) && i < |r|
    ensures Mirror(r[..i] + r[i + 1..], es[..i] + es[i + 1..])
  {
  }

  lemma MirrorInsert(r: seq<Page>, es: seq<Entry>, i: nat, p: Page)
    requires Mirror(r, es) && i <= |r|
    ensures Mirror(r[..i] + [p] + r[i..], es[..i] + [p.Snapshot()] + es[i..])
  {
  }

  function Succ(n: nat, i: nat): nat { if i + 1 == n then 0 else i + 1 }

  function Pred(n: nat, i: nat): int { if i == 0 then n - 1 else i - 1 }

  /** Each page of `r` is linked to the next and to the previous one, cyclically */
  ghost predicate Cyclic(r: seq<Page>)
    reads r`next, r`prev
  {
    && (forall i {:trigger r[i].next} :: 0 <= i < |r| ==> r[i].next == r[Succ(|r|, i)])
    && (forall i {:trigger r[i].prev} :: 0 <= i < |r| ==> r[i].prev == r[Pred(|r|, i)])
  }

  /** The links once the neighbours of page `i` point past it */
  lemma CyclicRemove(r: seq<Page>, i: nat)
    requires i < |r| - 1
    requires forall j {:trigger r[j].next} :: 0 <= j < |r| && j != i ==>
      r[j].next == r[if j == Pred(|r|, i) then i + 1 else Succ(|r|, j)]
    requires forall j {:trigger r[j].prev} :: 0 <= j < |r| && j != i ==>
      r[j].prev == r[if j == i + 1 then Pred(|r|, i) else Pred(|r|, j)]
    ensures Cyclic(r[..i] + r[i + 1..])
  {
    var s, n := r[..i] + r[i + 1..], |r|;
    assert forall j :: 0 <= j < n - 1 ==> s[j] == r[if j < i then j else j + 1];
    forall j | 0 <= j < n - 1 ensures s[j].next == s[Succ(n - 1, j)] && s[j].prev == s[Pred(n - 1, j)] {
      var k := if j < i then j else j + 1;
      assert s[j] == r[k] && r[k].next == r[if k == Pred(n, i) then i + 1 else Succ(n, k)];
      assert r[k].prev == r[if k == i + 1 then Pred(n, i) else Pred(n, k)];
    }
  }

  function Inserted<T>(r: seq<T>, p: T): (s: seq<T>)
    requires |r| > 0
    ensures |s| == |r| + 1 && s[|r| - 1] == p && s[|r|] == r[|r| - 1]
    ensures forall j :: 0 <= j < |r| - 1 ==> s[j] == r[j]
  {
    r[..|r| - 1] + [p] + r[|r| - 1..]
  }

  lemma InsertNext(r: seq<Page>, p: Page, s: seq<Page>)
    requires |r| > 0 && p.next == r[|r| - 1] && s == Inserted(r, p)
    requires forall j {:trigger r[j].next} :: 0 <= j < |r| ==>
      r[j].next == if j == Pred(|r|, |r| - 1) then p else r[Succ(|r|, j)]
    ensures forall j {:trigger s[j].next} :: 0 <= j < |s| ==> s[j].next == s[Succ(|s|, j)]
  {
    hide Inserted;
    var n := |r|;
    forall j | 0 <= j <= n ensures s[j].next == s[Succ(n + 1, j)] {
      if j < n - 2 {
        assert r[j].next == r[j + 1];
      } else if j == n - 2 {
        assert r[j].next == p;
      } else if j == n {
        assert r[n - 1].next == if n == 1 then p else r[0];
      }
    }
  }

  lemma InsertPrev(r: seq<Page>, p: Page, s: seq<Page>)
    requires |r| > 0 && p.prev == r[Pred(|r|, |r| - 1)] && s == Inserted(r, p)
    requires forall j {:trigger r[j].prev} :: 0 <= j < |r| ==>
      r[j].prev == if j == |r| - 1 then p else r[Pred(|r|, j)]
    ensures forall j {:trigger s[j].prev} :: 0 <= j < |s| ==> s[j].prev == s[Pred(|s|, j)]
  {
    hide Inserted;
    var n := |r|;
    forall j | 0 <= j <= n ensures s[j].prev == s[Pred(n + 1, j)] {
      if j < n - 1 {
        assert r[j].prev == r[Pred(n, j)];
      } else if j == n {
        assert r[n - 1].prev == p;
      }
    }
  }

  /** The links once page `p` is put before the last page of `r` */
  lemma CyclicInsert(r: seq<Page>, p: Page)
    requires |r| > 0 && p.next == r[|r| - 1] && p.prev == r[Pred(|r|, |r| - 1)]
    requires forall j {:trigger r[j].next} :: 0 <= j < |r| ==>
      r[j].next == if j == Pred(|r|, |r| - 1) then p else r[Succ(|r|, j)]
    requires forall j {:trigger r[j].prev} :: 0 <= j < |r| ==>
      r[j].prev == if j == |r| - 1 then p else r[Pred(|r|, j)]
    ensures Cyclic(Inserted(r, p))
  {
    hide Inserted;
    InsertNext(r, p, Inserted(r, p));
    InsertPrev(r, p, Inserted(r, p));
  }

  /** No page occurs twice, and all are accounted for */
  ghost predicate Once(r: seq<Page>, repr: set<Page>) {
    && (forall i, j :: 0 <= i < j < |r| ==> r[i] != r[j])
    && (forall i :: 0 <= i < |r| ==> r[i] in repr)
  }

  lemma OnceRemove(r: seq<Page>, repr: set<Page>, i: nat)
    requires Once(r, repr) && i < |r|
    ensures Once(r[..i] + r[i + 1..], repr) && r[i] !in r[..i] + r[i + 1..]
  {
    var s := r[..i] + r[i + 1..];
    assert forall j :: 0 <= j < |s| ==> s[j] == r[if j < i then j else j + 1];
  }

  lemma OnceInsert(r: seq<Page>, repr: set<Page>, p: Page)
    requires Once(r, repr) && |r| > 0 && p !in r && p in repr
    ensures Once(Inserted(r, p), repr)
  {
    hide Inserted;
  }

  /** The hands of `v` are these pages of `r` */
  ghost predicate HandsOn(r: seq<Page>, v: Clock, hot: Page, cold: Page, test: Page) {
    && v.hot < |r| && hot == r[v.hot]
    && v.cold < |r| && cold == r[v.cold]
    && v.test < |r| && test == r[v.test]
  }

  lemma HandsRemove(r: seq<Page>, v: Clock, i: nat, hot: Page, cold: Page, test: Page)
    requires i < |r| - 1 && |v.ring| == |r| && v.hot < |r| && v.cold < |r| && v.test < |r|
    requires hot == r[if v.hot == i then i + 1 else v.hot]
    requires cold == r[if v.cold == i then i + 1 else v.cold]
    requires test == r[if v.test == i then i + 1 else v.test]
    ensures HandsOn(r[..i] + r[i + 1..], RemoveAt(v, i), hot, cold, test)
    ensures RemoveAt(v, i).ring == v.ring[..i] + v.ring[i + 1..]
    ensures RemoveAt(v, i).nHot == v.nHot && RemoveAt(v, i).nCold == v.nCold && RemoveAt(v, i).nGhost == v.nGhost
  {
    var s := r[..i] + r[i + 1..];
    assert s[i] == r[i + 1] && forall h :: 0 <= h < |r| && h != i ==> s[Shift(h, i)] == r[h];
  }

  lemma HandsAppend(r: seq<Page>, v: Clock, p: Page, hot: Page, cold: Page, test: Page)
    requires |r| > 0 && |v.ring| == |r| && HandsOn(r, v, hot, cold, test)
    ensures var v' := Append(v, p.Snapshot()); var n := |r|;
      && HandsOn(r[..n - 1] + [p] + r[n - 1..], v', hot, cold, test)
      && v'.ring == v.ring[..n - 1] + [p.Snapshot()] + v.ring[n - 1..]
      && v'.nHot == v.nHot && v'.nCold == v.nCold && v'.nGhost == v.nGhost
  {
    var s, n := r[..|r| - 1] + [p] + r[|r| - 1..], |r|;
    assert s[n] == r[n - 1] && forall h :: 0 <= h < n - 1 ==> s[h] == r[h];
  }

  /** A page map that only lost pages */
  ghost predicate Within(m: map<Key, Page>, n: map<Key, Page>) {
    forall k :: k in m ==> k in n && m[k] == n[k]
  }

  class CacheInner {
    const maxResident: nat
    const maxNonResident: nat
    var pages: Page
    var handHot: Page
    var handCold: Page
    var handTest: Page
    var hotPageCount: int
    var residentColdPageCount: int
    var nonResidentPageCount: int
    var pageMap: map<Key, Page>
    ghost var ring: seq<Page>
    ghost var repr: set<Page>
    ghost var loose: set<Key>
    ghost var view: Clock

    ghost predicate Distinct()
      reads this`ring, this`repr
    {
      Once(ring, repr)
    }

    /** Doubly linked, and closed through the End page */
    ghost predicate Linked()
      reads this`ring, this`pages, ring`next, ring`prev
    {
      |ring| > 0 && pages == ring[0] && Cyclic(ring)
    }

    /** Every page says what its entry in `view` says */
    ghost predicate Mirrors()
      reads this`ring, this`view, ring`status, ring`refd, ring`locked, ring`data
    {
      Mirror(ring, view.ring)
    }

    /** The hands point into the ring, and the counters are those of `view` */
    ghost predicate Hands()
      reads this`ring, this`view, this`handHot, this`handCold, this`handTest
      reads this`hotPageCount, this`residentColdPageCount, this`nonResidentPageCount
    {
      && HandsOn(ring, view, handHot, handCold, handTest)
      && hotPageCount == view.nHot
      && residentColdPageCount == view.nCold
      && nonResidentPageCount == view.nGhost
    }

    ghost predicate Valid()
      reads this`ring, this`repr, this`pages, this`view, this`handHot, this`handCold, this`handTest
      reads this`hotPageCount, this`residentColdPageCount, this`nonResidentPageCount
      reads ring`next, ring`prev, ring`status, ring`refd, ring`locked, ring`data
    {
      Distinct() && Linked() && Mirrors() && Hands()
    }

    /** The page map holds exactly the pages of the ring, and those taken out of it to be
        put back at its head */
    ghost predicate Mapped()
      reads this`ring, this`view, this`pageMap, this`loose
    {
      && |ring| > 0
      && Keys(view.ring) !! loose && pageMap.Keys == Keys(view.ring) + loose
      && forall k :: k in pageMap && k !in loose ==> pageMap[k] in ring[..|ring| - 1] && pageMap[k].key == k
    }

    /** Everything between two operations on the clock */
    ghost predicate Sound()
      reads this, ring
    {
      Valid() && Mapped() && Ok(view)
    }

    constructor (maxResident: nat, maxNonResident: nat)
      requires maxResident > 0
      ensures Valid() && Mapped() && Ok(view) && fresh(repr)
      ensures this.maxResident == maxResident && this.maxNonResident == maxNonResident
      ensures |ring| == 1 && pageMap == map[] && loose == {} && view == CacheModel.Empty()
      ensures forall p :: p in repr ==> p.data == null
    {
      var end := new Page(Key(0, 0), End, null);
      this.maxResident, this.maxNonResident := maxResident, maxNonResident;
      pages, handHot, handCold, handTest := end, end, end, end;
      hotPageCount, residentColdPageCount, nonResidentPageCount := 0, 0, 0;
      pageMap := map[];
      ring, repr, loose := [end], {end}, {};
      view := CacheModel.Empty();
      new;
      CacheModel.EmptyIdle(CacheModel.Options(maxResident, maxNonResident));
    }

    /** The pointer surgery of `remove_page_from_list` */
    method Unlink(page: Page, ghost i: nat)
      requires Distinct() && Linked() && i < |ring| - 1 && ring[i] == page
      modifies this`pages, this`ring, repr`next, repr`prev
      ensures Distinct() && Linked()
      ensures ring == old(ring[..i] + ring[i + 1..]) && page !in ring
    {
      ghost var r, n := ring, |ring|;
      assert page.prev == r[Pred(n, i)] && page.next == r[i + 1];
      if pages == page {
        pages := page.next;
      }
      page.prev.next := page.next;
      page.next.prev := page.prev;
      CyclicRemove(r, i);
      OnceRemove(r, repr, i);
      ring := r[..i] + r[i + 1..];
    }

    lemma NextOf(i: nat)
      requires Distinct() && Linked() && i < |ring| - 1
      ensures ring[i].next == ring[i + 1]
      ensures forall h :: 0 <= h < |ring| ==> (ring[h] == ring[i] <==> h == i)
    {
    }

    /** A hand on the page moves to the next one. */
    method SkipPage(page: Page, ghost i: nat)
      requires Distinct() && Linked() && Hands() && i < |ring| - 1 && ring[i] == page
      modifies this`handHot, this`handCold, this`handTest
      ensures handHot == ring[if view.hot == i then i + 1 else view.hot]
      ensures handCold == ring[if view.cold == i then i + 1 else view.cold]
      ensures handTest == ring[if view.test == i then i + 1 else view.test]
    {
      hide Distinct, Linked;
      NextOf(i);
      var next := page.next;
      if handHot == page {
        handHot := next;
      }
      if handCold == page {
        handCold := next;
      }
      if handTest == page {
        handTest := next;
      }
    }

    /** `remove_page_from_list` */
    method RemovePageFromList(page: Page, ghost i: nat)
      requires Valid() && i < |ring| - 1 && ring[i] == page
      modifies this`pages, this`handHot, this`handCold, this`handTest, this`ring, this`view
      modifies repr`next, repr`prev
      ensures Valid() && view == RemoveAt(old(view), i) && page !in ring
      ensures ring == old(ring[..i] + ring[i + 1..])
    {
      hide Distinct, Linked, Mirror, HandsOn, RemoveAt;
      Sizes();
      SkipPage(page, i);
      ghost var r := ring;
      HandsRemove(r, view, i, handHot, handCold, handTest);
      Unlink(page, i);
      MirrorRemove(r, view.ring, i);
      view := RemoveAt(view, i);
    }

    /** The pointer surgery of `add_page_to_list` */
    method LinkLast(page: Page)
      requires Distinct() && Linked() && page !in ring && page in repr
      modifies this`pages, this`ring, repr`next, repr`prev
      ensures Distinct() && Linked()
      ensures ring == Inserted(old(ring), page)
    {
      hide Inserted;
      var end := pages.prev;
      ghost var r, n := ring, |ring|;
      assert end == r[n - 1];
      if pages == end {
        pages := page;
        end.next := page;
      } else {
        assert end.prev == r[n - 2];
        end.prev.next := page;
      }
      page.prev := end.prev;
      end.prev := page;
      page.next := end;
      OnceInsert(r, repr, page);
      CyclicInsert(r, page);
      ring := Inserted(r, page);
    }

    /** `add_page_to_list` */
    method AddPageToList(page: Page)
      requires Valid() && page !in ring && page in repr
      modifies this`pages, this`ring, this`view
      modifies repr`next, repr`prev
      ensures Valid() && view == Append(old(view), page.Snapshot())
      ensures ring == Inserted(old(ring), page)
    {
      hide Distinct, Linked, Mirror, HandsOn, Append;
      Sizes();
      ghost var r := ring;
      HandsAppend(r, view, page, handHot, handCold, handTest);
      LinkLast(page);
      MirrorInsert(r, view.ring, |r| - 1, page);
      view := Append(view, page.Snapshot());
    }

    lemma Sizes()
      requires Valid()
      ensures |ring| > 0 && |view.ring| == |ring|
      ensures view.hot < |ring| && view.cold < |ring| && view.test < |ring|
    {
    }

    /** Records in `view` that the page at `i` now says something else. */
    ghost method Note(i: nat, e: Entry)
      requires Distinct() && Linked() && Hands() && i < |ring| == |view.ring|
      requires ring[i].Snapshot() == e
      requires Mirror(ring[..i], view.ring[..i]) && Mirror(ring[i + 1..], view.ring[i + 1..])
      modifies this`view
      ensures Valid() && view == Put(old(view), i, e)
    {
      hide Distinct, Linked;
      view := Put(view, i, e);
    }

    /** What stays true of the other pages when the page at `i` changes */
    lemma Others(i: nat)
      requires Valid() && i < |ring|
      ensures |view.ring| == |ring| && ring[i].Snapshot() == view.ring[i]
      ensures Mirror(ring[..i], view.ring[..i]) && Mirror(ring[i + 1..], view.ring[i + 1..])
      ensures ring[i] !in ring[..i] && ring[i] !in ring[i + 1..]
    {
    }

    /** `handle_hot` */
    method HandleHot(page: Page, ghost i: nat) returns (done: bool)
      requires Valid() && i < |ring| && ring[i] == page
      modifies page`refd, page`status, this`view, this`hotPageCount, this`residentColdPageCount
      ensures Valid() && (view, done) == ClockModel.HandleHot(old(view), i)
    {
      hide Distinct, Linked, Mirror;
      Others(i);
      if page.locked {
        return false;
      }
      if page.refd {
        page.refd := false;
        Note(i, page.Snapshot());
        return false;
      }
      page.status := Test;
      hotPageCount := hotPageCount - 1;
      residentColdPageCount := residentColdPageCount + 1;
      view := view.(nHot := view.nHot - 1, nCold := view.nCold + 1);
      Note(i, page.Snapshot());
      return true;
    }

    lemma Following(i: nat)
      requires Linked() && i < |ring| && |view.ring| == |ring|
      ensures ring[i].next == ring[Next(view, i)]
    {
    }

    /** HAND_test moves forward. */
    method StepHandTest() returns (page: Page, ghost i: nat)
      requires Valid()
      modifies this`handTest, this`view
      ensures Valid() && i == old(view).test < |ring| && page == ring[i]
      ensures |view.ring| == |ring| && view == old(view).(test := Next(old(view), i))
    {
      hide Distinct, Linked, Mirror;
      Sizes();
      page, i := handTest, view.test;
      Following(i);
      handTest := page.next;
      view := view.(test := Next(view, i));
    }

    /** HAND_hot moves forward. */
    method StepHandHot() returns (page: Page, ghost i: nat)
      requires Valid()
      modifies this`handHot, this`view
      ensures Valid() && i == old(view).hot < |ring| && page == ring[i]
      ensures |view.ring| == |ring| && view == old(view).(hot := Next(old(view), i))
    {
      hide Distinct, Linked, Mirror;
      Sizes();
      page, i := handHot, view.hot;
      Following(i);
      handHot := page.next;
      view := view.(hot := Next(view, i));
    }

    /** HAND_cold moves forward. */
    method StepHandCold() returns (page: Page, ghost i: nat)
      requires Valid()
      modifies this`handCold, this`view
      ensures Valid() && i == old(view).cold < |ring| && page == ring[i]
      ensures |view.ring| == |ring| && view == old(view).(cold := Next(old(view), i))
    {
      hide Distinct, Linked, Mirror;
      Sizes();
      page, i := handCold, view.cold;
      Following(i);
      handCold := page.next;
      view := view.(cold := Next(view, i));
    }

    /** `remove_page`: `resident` is the kind of cold page to discount. */
    method RemovePage(page: Page, resident: bool, ghost i: nat)
      requires Valid() && Mapped() && Shape(view) && i < |ring| - 1 && ring[i] == page
      modifies this`pages, this`handHot, this`handCold, this`handTest, this`ring, this`view, this`pageMap
      modifies this`residentColdPageCount, this`nonResidentPageCount, repr`next, repr`prev
      ensures Valid() && Mapped()
      ensures view == if resident then RemoveAt(old(view), i).(nCold := old(view).nCold - 1)
                      else RemoveAt(old(view), i).(nGhost := old(view).nGhost - 1)
      ensures ring == old(ring[..i] + ring[i + 1..]) && page !in ring
      ensures pageMap == old(pageMap) - {page.key}
    {
      hide Valid, RemoveAt, Keys, Mapped, Shape;
      Sizes();
      Unmapped(i);
      RemoveFields(view, i);
      RemovePageFromList(page, i);
      Discount(resident);
      pageMap := pageMap - {page.key};
      Remapped();
    }

    /** `update_page_count` with `Dec`, for the two kinds of cold pages */
    method Discount(resident: bool)
      requires Valid()
      modifies this`view, this`residentColdPageCount, this`nonResidentPageCount
      ensures Valid()
      ensures view == if resident then old(view).(nCold := old(view).nCold - 1)
                      else old(view).(nGhost := old(view).nGhost - 1)
    {
      hide Distinct, Linked, Mirror;
      if resident {
        residentColdPageCount := residentColdPageCount - 1;
        view := view.(nCold := view.nCold - 1);
      } else {
        nonResidentPageCount := nonResidentPageCount - 1;
        view := view.(nGhost := view.nGhost - 1);
      }
    }

    lemma Remapped()
      requires MapOf(pageMap, loose, ring, Keys(view.ring))
      ensures Mapped()
    {
    }

    static ghost predicate MapOf(m: map<Key, Page>, loose: set<Key>, r: seq<Page>, keys: set<Key>) {
      && |r| > 0
      && keys !! loose && m.Keys == keys + loose
      && forall k :: k in m && k !in loose ==> m[k] in r[..|r| - 1] && m[k].key == k
    }

    lemma Unmapped(i: nat)
      requires Valid() && Mapped() && Shape(view) && i < |ring| - 1
      ensures |view.ring| == |ring|
      ensures MapOf(pageMap - {ring[i].key}, loose, ring[..i] + ring[i + 1..], Keys(RemoveAt(view, i).ring))
    {
      hide Linked, Distinct, RemoveAt, Keys, Shape;
      Others(i);
      RemoveKeys(view, i);
      InSets(view.ring, i);
      StillIn(ring, i, pageMap, loose);
    }

    static lemma StillIn(r: seq<Page>, i: nat, m: map<Key, Page>, loose: set<Key>)
      requires i < |r| - 1 && forall k :: k in m && k !in loose ==> m[k] in r[..|r| - 1] && m[k].key == k
      ensures var s := r[..i] + r[i + 1..];
        forall k :: k in m && k !in loose && k != r[i].key ==> m[k] in s[..|s| - 1]
    {
      var s := r[..i] + r[i + 1..];
      forall k | k in m && k !in loose && k != r[i].key ensures m[k] in s[..|s| - 1] {
        var j :| 0 <= j < |r| - 1 && r[j] == m[k];
        assert j != i;
        assert s[Shift(j, i)] == m[k];
      }
    }

    static lemma RemoveFields(c: Clock, i: nat)
      requires i < |c.ring|
      ensures RemoveAt(c, i).nHot == c.nHot && RemoveAt(c, i).nCold == c.nCold && RemoveAt(c, i).nGhost == c.nGhost
    {
    }

    /** Ends the test period of a page. */
    method MarkCold(page: Page, ghost i: nat)
      requires Valid() && i < |ring| && ring[i] == page
      modifies page`status, this`view
      ensures Valid() && |old(view).ring| == |ring|
      ensures view == Put(old(view), i, old(view).ring[i].(status := Cold))
      ensures old(view).ring[i].resident == (page.data != null)
    {
      hide Distinct, Linked, Mirror;
      Others(i);
      page.status := Cold;
      Note(i, page.Snapshot());
    }

    static lemma PutRemove(c: Clock, i: nat, e: Entry)
      requires Shape(c) && i < |c.ring| - 1 && e.key == c.ring[i].key && e.status != End
      ensures Shape(Put(c, i, e)) && Keys(Put(c, i, e).ring) == Keys(c.ring)
      ensures RemoveAt(Put(c, i, e), i) == RemoveAt(c, i)
    {
      PutOk(c, i, e);
      assert c.ring[i := e][..i] == c.ring[..i] && c.ring[i := e][i + 1..] == c.ring[i + 1..];
    }

    /** A hand meets a cold page: the page is Cold from now on, and is removed if it is
        not resident. */
    method ExpirePage(page: Page, ghost i: nat)
      requires Valid() && Mapped() && Shape(view) && i < |ring| - 1 && ring[i] == page
      modifies this`pages, this`handHot, this`handCold, this`handTest, this`ring, this`view, this`pageMap
      modifies this`residentColdPageCount, this`nonResidentPageCount, repr`next, repr`prev, page`status
      ensures Valid() && Mapped() && |old(view).ring| == |old(ring)| && view == Expire(old(view), i)
      ensures ring == if page.data != null then old(ring) else old(ring[..i] + ring[i + 1..])
      ensures Within(pageMap, old(pageMap))
    {
      hide Valid, Keys, RemoveAt, Shape;
      Sizes();
      ghost var v := view;
      MarkCold(page, i);
      PutRemove(v, i, v.ring[i].(status := Cold));
      if page.data == null {
        RemovePage(page, false, i);
      }
    }

    /** One round of the loop of `run_hand_test` */
    method HandTestStep() returns (removed: bool)
      requires Sound()
      modifies this, repr`next, repr`prev, repr`status
      ensures Sound() && (view, removed) == TestStep(old(view))
      ensures !removed ==> ring == old(ring)
      ensures repr == old(repr) && loose == old(loose) && Within(pageMap, old(pageMap))
    {
      hide Valid, Keys, Ok, Expire, Residents, Count, Unlocked, KeepsProtected;
      ghost var c := view;
      var page, i := StepHandTest();
      Facts(c, i, page);
      if page.status == Cold || page.status == Test {
        ExpireEvolves(view, i);
        ExpirePage(page, i);
        removed := page.data == null;
      } else {
        removed := false;
      }
    }

    lemma Facts(c: Clock, i: nat, page: Page)
      requires Valid() && Ok(c) && i < |ring| && page == ring[i]
      requires view == c.(hot := view.hot, cold := view.cold, test := view.test)
      ensures Ok(view) && Shape(view) && Shape(c) && page in repr
      ensures |c.ring| == |ring| && page.Snapshot() == c.ring[i]
      ensures page.status != End ==> i < |ring| - 1
    {
      hide Count;
      Others(i);
      Sizes();
      MoveOk(c, view);
    }

    lemma At(i: nat)
      requires Valid() && i < |ring|
      ensures |view.ring| == |ring| && ring[i].Snapshot() == view.ring[i]
      ensures forall j :: 0 <= j < |ring| ==> (ring[j] == ring[i] <==> j == i)
      ensures view.hot < |ring| && handHot == ring[view.hot]
      ensures view.cold < |ring| && handCold == ring[view.cold]
      ensures view.test < |ring| && handTest == ring[view.test]
      ensures hotPageCount == view.nHot && residentColdPageCount == view.nCold && nonResidentPageCount == view.nGhost
    {
    }

    /** `run_hand_test` */
    method RunHandTest()
      requires Sound()
      modifies this, repr`next, repr`prev, repr`status
      ensures Sound() && view == TestSweep(old(view), |old(view).ring|)
      ensures repr == old(repr) && loose == old(loose) && Within(pageMap, old(pageMap))
    {
      hide Valid, Mapped, Ok, TestStep, Evolves;
      var stop := handTest;
      Sizes();
      At(view.test);
      ghost var start, n := view.test, |ring|;
      while true
        invariant Sound() && ring == old(ring) && |view.ring| == |ring|
        invariant start < |ring| && 0 < n <= |ring| && stop == ring[start]
        invariant view.test == Wrap(|ring|, start + |ring| - n)
        invariant TestSweep(view, n) == TestSweep(old(view), |old(view).ring|)
        invariant repr == old(repr) && loose == old(loose) && Within(pageMap, old(pageMap))
        decreases n
      {
        TestStepGhosts(view);
        var removed := HandTestStep();
        if removed {
          return;
        }
        n := n - 1;
        At(start);
        if handTest == stop {
          return;
        }
      }
    }

    /** One round of the first loop of `run_hand_hot` */
    method HandHotStep() returns (page: Page, outcome: HotOutcome)
      requires Sound()
      modifies this, repr`next, repr`prev, repr`status, repr`refd
      ensures Sound() && (view, outcome) == HotStep(old(view))
      ensures old(view).hot < |old(ring)| && page == old(ring)[old(view).hot]
      ensures var i := old(view).hot;
        ring == if outcome == Dropped then old(ring)[..i] + old(ring)[i + 1..] else old(ring)
      ensures repr == old(repr) && loose == old(loose) && Within(pageMap, old(pageMap))
    {
      hide Valid, Keys, Ok, Expire, Residents, Count, Unlocked, KeepsProtected, ClockModel.HandleHot;
      ghost var c := view;
      ghost var i: nat;
      page, i := StepHandHot();
      Facts(c, i, page);
      match page.status
      case Hot =>
        HandleHotEvolves(view, i);
        HandleHotKeys(view, i);
        var done := HandleHot(page, i);
        outcome := if done then Cooled else Spared;
      case Cold | Test =>
        ExpireEvolves(view, i);
        ExpirePage(page, i);
        outcome := if page.data == null then Dropped else Tracked;
      case ProtectedTest | End =>
        outcome := Tracked;
    }

    static lemma HandleHotKeys(c: Clock, i: nat)
      requires Shape(c) && i < |c.ring| - 1
      ensures Keys(ClockModel.HandleHot(c, i).0.ring) == Keys(c.ring)
    {
      var r := ClockModel.HandleHot(c, i).0.ring;
      assert forall j :: 0 <= j < |r| ==> r[j].key == c.ring[j].key;
    }

    /** One round of the second loop of `run_hand_hot` */
    method HandForceStep() returns (done: bool)
      requires Sound()
      modifies this, repr`status, repr`refd
      ensures Sound() && (view, done) == ForceStep(old(view)) && ring == old(ring) && pageMap == old(pageMap)
      ensures repr == old(repr) && loose == old(loose)
    {
      hide Valid, Keys, Ok, Residents, Count, Unlocked, KeepsProtected, ClockModel.HandleHot;
      ghost var c := view;
      var page, i := StepHandHot();
      Facts(c, i, page);
      done := false;
      if page.status == Hot {
        HandleHotEvolves(view, i);
        HandleHotKeys(view, i);
        done := HandleHot(page, i);
      }
    }

    /** The tracked page is `d` pages ahead of the hand */
    static ghost predicate StopAt(r: seq<Page>, h: nat, d: Option<nat>, stop: Page?) {
      && (stop == null <==> d.None?)
      && (d.Some? ==> d.value < |r| && Wrap(|r|, h + d.value) < |r| && stop == r[Wrap(|r|, h + d.value)])
    }

    static lemma StopStep(r: seq<Page>, h: nat, d: Option<nat>, stop: Page?, o: HotOutcome, r': seq<Page>, h': nat)
      requires h < |r| && StopAt(r, h, d, stop) && d != Some(0) && o != Cooled
      requires if o == Dropped then h < |r| - 1 && r' == r[..h] + r[h + 1..] && h' == h
               else r' == r && h' == if h + 1 == |r| then 0 else h + 1
      ensures StopAt(r', h', if o == Tracked then Track(d, |r| - 1) else Dec(d),
                     if o == Tracked && stop == null then r[h] else stop)
    {
      if o == Dropped && d.Some? {
        StopShifts(r, h, d.value);
      }
    }

    static lemma StopShifts(r: seq<Page>, i: nat, d: nat)
      requires i < |r| - 1 && 0 < d < |r|
      ensures (r[..i] + r[i + 1..])[Wrap(|r| - 1, i + d - 1)] == r[Wrap(|r|, i + d)]
    {
    }

    lemma Reached(d: Option<nat>, stop: Page?)
      requires Valid() && StopAt(ring, view.hot, d, stop)
      ensures (stop == null || handHot != stop) <==> d != Some(0)
    {
      if d.Some? {
        At(Wrap(|ring|, view.hot + d.value));
      }
    }

    /** The first loop of `run_hand_hot`; true when a hot page was turned cold */
    method SweepHot() returns (done: bool)
      requires Sound()
      modifies this, repr`next, repr`prev, repr`status, repr`refd
      ensures Sound() && (view, done) == HotSweep(old(view), None)
      ensures repr == old(repr) && loose == old(loose) && Within(pageMap, old(pageMap))
    {
      hide Valid, Mapped, Ok, HotStep, Evolves, Track, Dec, Within, StopAt;
      var stop: Page? := null;
      ghost var d: Option<nat> := None;
      Sizes();
      NoStop(ring, view.hot);
      WithinSelf(pageMap);
      Reached(d, stop);
      while stop == null || handHot != stop
        invariant Sound() && |view.ring| == |ring|
        invariant repr == old(repr) && loose == old(loose) && Within(pageMap, old(pageMap))
        invariant StopAt(ring, view.hot, d, stop)
        invariant (stop == null || handHot != stop) <==> d != Some(0)
        invariant HotSweep(view, d) == HotSweep(old(view), None)
        decreases if d.None? then 1 else 0, if d.None? then |view.ring| - view.hot else d.value
      {
        ghost var c, r, m := view, ring, pageMap;
        var page, outcome := HandHotStep();
        WithinTrans(pageMap, m, old(pageMap));
        Sizes();
        if outcome == Cooled {
          return true;
        }
        StopStep(r, c.hot, d, stop, outcome, ring, view.hot);
        Closer(c, d);
        if outcome == Tracked && stop == null {
          stop := page;
        }
        d := if outcome == Tracked then Track(d, |r| - 1) else Dec(d);
        Reached(d, stop);
      }
      done := false;
    }

    static lemma NoStop(r: seq<Page>, h: nat)
      ensures StopAt(r, h, None, null)
    {
    }

    static lemma WithinSelf(m: map<Key, Page>)
      ensures Within(m, m)
    {
    }

    static lemma WithinTrans(a: map<Key, Page>, b: map<Key, Page>, c: map<Key, Page>)
      requires Within(a, b) && Within(b, c)
      ensures Within(a, c)
    {
    }

    static lemma Closer(c: Clock, d: Option<nat>)
      requires Ok(c) && d != Some(0) && HotStep(c).1 != Cooled
      ensures var (c', o) := HotStep(c);
        var d' := if o == Tracked then Track(d, |c.ring| - 1) else Dec(d);
        if d.None? then d'.Some? || (d'.None? && |c'.ring| - c'.hot < |c.ring| - c.hot)
        else d'.Some? && d'.value < d.value
    {
      hide Ok, Evolves;
      assert Ok(c);
    }

    /** `run_hand_hot` */
    method RunHandHot(coldPageRequired: bool)
      requires Sound() && (coldPageRequired ==> Unlocked(view.ring))
      modifies this, repr`next, repr`prev, repr`status, repr`refd
      ensures Sound() && view == ClockHands.RunHandHot(old(view), coldPageRequired)
      ensures repr == old(repr) && loose == old(loose) && Within(pageMap, old(pageMap))
    {
      hide Valid, Mapped, Ok, HotSweep, Unlocked, Count, ForceStep, Meets, Ahead;
      var done := SweepHot();
      if done {
        return;
      }
      Sizes();
      At(view.hot);
      if coldPageRequired && residentColdPageCount == 0 && hotPageCount > 0 {
        ghost var c, k: nat := view, |ring|;
        FreeHotExists(c);
        while true
          invariant Sound() && repr == old(repr) && loose == old(loose) && Within(pageMap, old(pageMap))
          invariant Ahead(view.ring, view.hot, k, FreeHot)
          invariant HotForce(view, k) == HotForce(c, |c.ring|)
          decreases Count(view.ring, Referenced), k
        {
          ghost var before := view;
          var cooled := HandForceStep();
          if cooled {
            return;
          }
          ForceProgress(before, k);
          k := if Meets(before.ring[before.hot], FreeHot) then |view.ring| else k - 1;
        }
      }
    }

    /** A page of the ring is the one the map has for its key. */
    lemma MappedAt(i: nat)
      requires Sound() && i < |ring| - 1
      ensures |view.ring| == |ring| && view.ring[i] == ring[i].Snapshot()
      ensures ring[i].key in pageMap && pageMap[ring[i].key] == ring[i]
    {
      hide Count, Linked;
      At(i);
      InSets(view.ring, i);
      var k := ring[i].key;
      var j :| 0 <= j < |ring| - 1 && ring[j] == pageMap[k];
      At(j);
    }

    /** Where a page that is still mapped is in the ring */
    lemma IndexOfPage(page: Page)
      requires Sound() && page.key in Keys(view.ring) && pageMap[page.key] == page
      ensures page.key in Keys(view.ring) && page.key !in loose
      ensures var j := IndexOf(view.ring, page.key); j < |ring| - 1 && ring[j] == page
    {
      hide Count, Linked;
      Sizes();
      var j := IndexOf(view.ring, page.key);
      At(j);
      MappedAt(j);
    }

    /** HAND_cold spares a cold page. */
    method RescuePage(page: Page, ghost i: nat)
      requires Sound() && Unlocked(view.ring) && i < |ring| - 1 && ring[i] == page
      requires |view.ring| == |ring| && Is(view.ring[i], ResidentCold) && (view.ring[i].locked || view.ring[i].refd)
      modifies this, repr`next, repr`prev, repr`status, repr`refd
      ensures Sound() && |old(view).ring| == |old(ring)| && view == Rescue(old(view), i)
      ensures repr == old(repr) && loose == old(loose) && Within(pageMap, old(pageMap))
    {
      hide Valid, Keys, Ok, Count, Unlocked, Residents, KeepsProtected, ClockHands.RunHandHot;
      ghost var v := view;
      PutSame(v, i);
      Facts(v, i, page);
      var promoted := Clear(page, i);
      if promoted {
        RunHandHot(true);
      }
    }

    static lemma PutSame(c: Clock, i: nat)
      requires Ok(c) && i < |c.ring| - 1
      ensures forall e: Entry :: e.key == c.ring[i].key && e.status != End ==> Keys(Put(c, i, e).ring) == Keys(c.ring)
    {
      forall e: Entry | e.key == c.ring[i].key && e.status != End ensures Keys(Put(c, i, e).ring) == Keys(c.ring) {
        PutOk(c, i, e);
      }
    }

    /** `take_refd`, unless the page is locked, and the change of status and counters that goes with it */
    method Clear(page: Page, ghost i: nat) returns (promoted: bool)
      requires Valid() && Ok(view) && i < |ring| - 1 && ring[i] == page && |view.ring| == |ring|
      requires Is(view.ring[i], ResidentCold)
      modifies page`status, page`refd, this`view, this`hotPageCount, this`residentColdPageCount
      ensures Valid() && |old(view).ring| == |ring| && view == Spare(old(view), i)
      ensures promoted == (old(view).ring[i].status == Test)
    {
      hide Distinct, Linked, Mirror, Ok;
      Others(i);
      if !page.locked {
        page.refd := false;
      }
      promoted := page.status == Test;
      if promoted {
        page.status := Hot;
        residentColdPageCount := residentColdPageCount - 1;
        hotPageCount := hotPageCount + 1;
        view := view.(nHot := view.nHot + 1, nCold := view.nCold - 1);
      }
      Note(i, page.Snapshot());
    }

    /** `remove_page_from_list` and `add_page_to_list`: the page goes to the list head. */
    method MovePage(page: Page, ghost j: nat)
      requires Sound() && j < |ring| - 1 && ring[j] == page
      modifies this`pages, this`handHot, this`handCold, this`handTest, this`ring, this`view
      modifies repr`next, repr`prev
      ensures Sound() && |old(view).ring| == |old(ring)| && view == MoveToHead(old(view), j)
    {
      hide Valid, Ok, RemoveAt, Append, Keys, Mapped;
      Facts(view, j, page);
      MoveToHeadEvolves(view, j);
      MovedMap(j);
      RemovePageFromList(page, j);
      AddPageToList(page);
      Remapped();
    }

    static lemma MoveKeys(c: Clock, j: nat)
      requires Ok(c) && j < |c.ring| - 1
      ensures Keys(MoveToHead(c, j).ring) == Keys(c.ring)
    {
      hide Count, Keys, Shape, Settled;
      RemoveOk(c, j);
      assert c.ring[j].status != End by { NotEnd(c, j); }
      AppendOk(RemoveAt(c, j), c.ring[j]);
      InSets(c.ring, j);
    }

    lemma MovedMap(j: nat)
      requires Sound() && |view.ring| == |ring| && j < |ring| - 1
      ensures MapOf(pageMap, loose, Inserted(ring[..j] + ring[j + 1..], ring[j]), Keys(MoveToHead(view, j).ring))
    {
      hide Valid, Ok, MoveToHead, Keys;
      MoveKeys(view, j);
      var r := ring;
      var s := r[..j] + r[j + 1..];
      var t := s[..|s| - 1] + [r[j]] + s[|s| - 1..];
      assert r[..|r| - 1] == r[..j] + [r[j]] + r[j + 1..|r| - 1];
      assert t[..|t| - 1] == r[..j] + r[j + 1..|r| - 1] + [r[j]];
      forall k | k in pageMap && k !in loose ensures pageMap[k] in t[..|t| - 1] {
        assert pageMap[k] in r[..j] + [r[j]] + r[j + 1..|r| - 1];
      }
    }

    /** HAND_cold meets a locked or referenced page. */
    method GiveSecondChance(page: Page, ghost i: nat)
      requires Sound() && Unlocked(view.ring) && i < |ring| - 1 && ring[i] == page
      requires |view.ring| == |ring| && Is(view.ring[i], ResidentCold) && (view.ring[i].locked || view.ring[i].refd)
      modifies this, repr`next, repr`prev, repr`status, repr`refd
      ensures Sound() && |old(view).ring| == |old(ring)| && view == SecondChance(old(view), i)
      ensures repr == old(repr) && loose == old(loose) && Within(pageMap, old(pageMap))
    {
      hide Valid, Ok, Rescue, Unlocked, MoveToHead, Is;
      MappedAt(i);
      RescuePage(page, i);
      IndexOfPage(page);
      MovePage(page, IndexOf(view.ring, page.key));
    }

    /** `lock_exclusive` and `take_data`, with the counters that go with it */
    method TakeData(page: Page, ghost i: nat) returns (data: Buffer, inTest: bool)
      requires Valid() && i < |ring| && ring[i] == page && |view.ring| == |ring| && view.ring[i].resident
      modifies page`data, page`locked, this`view, this`residentColdPageCount, this`nonResidentPageCount
      ensures Valid() && |old(view).ring| == |ring| && data == old(page.data) && page.data == null
      ensures inTest == (old(view).ring[i].status == Test)
      ensures var g := Put(old(view), i, old(view).ring[i].(resident := false, locked := true));
        view == if inTest then g.(nCold := g.nCold - 1, nGhost := g.nGhost + 1) else g
    {
      hide Distinct, Linked, Mirror;
      Others(i);
      page.locked := true;
      data := page.data;
      page.data := null;
      inTest := page.status == Test;
      if inTest {
        residentColdPageCount := residentColdPageCount - 1;
        nonResidentPageCount := nonResidentPageCount + 1;
        view := view.(nCold := view.nCold - 1, nGhost := view.nGhost + 1);
      }
      Note(i, page.Snapshot());
    }

    /** HAND_cold takes the buffer of an unreferenced cold page. */
    method EvictPage(page: Page, ghost i: nat) returns (data: Buffer)
      requires Sound() && i < |ring| - 1 && ring[i] == page
      requires |view.ring| == |ring| && Is(view.ring[i], ResidentCold)
      modifies this, repr`next, repr`prev, repr`status, page`data, page`locked
      ensures Sound() && |old(view).ring| == |old(ring)| && view == Evict(old(view), i, maxNonResident)
      ensures data == old(page.data) && page.data == null
      ensures repr == old(repr) && loose == old(loose) && Within(pageMap, old(pageMap))
    {
      hide Valid, Keys, Ok, Count, Residents, KeepsProtected, TestSweep, RemoveAt, Yields;
      ghost var v := view;
      Facts(v, i, page);
      var inTest: bool;
      data, inTest := TakeData(page, i);
      PutRemove(v, i, v.ring[i].(resident := false, locked := true));
      At(i);
      if inTest {
        GhostOk(v, i);
        if nonResidentPageCount > maxNonResident {
          RunHandTest();
        }
      } else {
        DropOk(v, i);
        DropFields(v, i);
        RemovePage(page, true, i);
      }
    }

    static lemma DropFields(c: Clock, i: nat)
      requires Ok(c) && i < |c.ring| - 1 && Is(c.ring[i], ResidentCold)
      ensures Ok(RemoveAt(c, i).(nCold := c.nCold - 1)) && RemoveAt(c, i).nCold == c.nCold
    {
      hide Count;
      DropOk(c, i);
    }

    /** One round of the loop of `run_hand_cold` */
    method HandColdStep() returns (donor: Option<Key>, data: Buffer?)
      requires Sound() && Unlocked(view.ring)
      modifies this, repr`next, repr`prev, repr`status, repr`refd, repr`data, repr`locked
      ensures Sound() && (view, donor) == ColdStep(old(view), maxNonResident)
      ensures repr == old(repr) && loose == old(loose) && Within(pageMap, old(pageMap))
      ensures donor.None? ==> forall p :: p in repr ==> p.data == old(p.data) && p.locked == old(p.locked)
      ensures donor.Some? ==>
        && donor.value in old(pageMap) && data != null
        && data == old(pageMap[donor.value].data) && old(pageMap)[donor.value].data == null
      ensures donor.Some? ==> forall p :: p in repr && p != old(pageMap)[donor.value] ==>
        p.data == old(p.data) && p.locked == old(p.locked)
    {
      hide Valid, Keys, Ok, Count, Residents, KeepsProtected, Evict, SecondChance, Unlocked, Yields, Evolves;
      ghost var c := view;
      var page, i := StepHandCold();
      Facts(c, i, page);
      donor, data := None, null;
      if (page.status == Cold || page.status == Test) && page.data != null {
        MappedAt(i);
        if page.locked || page.refd {
          GiveSecondChance(page, i);
        } else {
          donor := Some(page.key);
          data := EvictPage(page, i);
        }
      }
    }

    /** `run_hand_cold` */
    method RunHandCold() returns (donor: Key, data: Buffer)
      requires Sound() && Reclaimable(view.ring)
      modifies this, repr`next, repr`prev, repr`status, repr`refd, repr`data, repr`locked
      ensures Sound() && (view, donor) == ClockHands.RunHandCold(old(view), maxNonResident)
      ensures repr == old(repr) && loose == old(loose) && Within(pageMap, old(pageMap))
      ensures donor in old(pageMap) && data == old(pageMap[donor].data) && old(pageMap)[donor].data == null
      ensures forall p :: p in repr && p != old(pageMap)[donor] ==> p.data == old(p.data) && p.locked == old(p.locked)
    {
      hide Valid, Mapped, Ok, Reclaimable, ColdStep, ClockHands.RunHandHot, Evolves, Yields, Near, Count, Is, Within, Unlocked;
      WithinSelf(pageMap);
      Sizes();
      At(0);
      NonNegative(view);
      SearchStarts(view);
      UnlockedOf(view);
      if residentColdPageCount == 0 {
        RunHandHot(true);
      }
      ghost var c := view;
      ghost var k: nat := 2 * |c.ring| + 1;
      while true
        invariant Sound() && Reclaimable(view.ring) && Near(view, k)
        invariant ColdSweep(view, k, maxNonResident) == ColdSweep(c, 2 * |c.ring| + 1, maxNonResident)
        invariant repr == old(repr) && loose == old(loose) && Within(pageMap, old(pageMap))
        invariant forall p :: p in repr ==> p.data == old(p.data) && p.locked == old(p.locked)
        decreases Count(view.ring, Referenced), Count(view.ring, LockedTest), k
      {
        ghost var before, m := view, pageMap;
        NonNegative(before);
        UnlockedOf(before);
        var victim, buffer := HandColdStep();
        WithinTrans(pageMap, m, old(pageMap));
        if victim.Some? {
          SameEntry(m, old(pageMap), victim.value);
          return victim.value, buffer;
        }
        ColdProgress(before, k, maxNonResident);
        k := if Target(before.ring[before.cold]) then 2 * |view.ring| + 1 else k - 1;
      }
    }

    static lemma UnlockedOf(c: Clock)
      requires Reclaimable(c.ring)
      ensures Unlocked(c.ring)
    {
    }

    static lemma NonNegative(c: Clock)
      requires Ok(c)
      ensures c.nCold >= 0 && c.cold < |c.ring|
    {
    }

    static lemma SameEntry(m: map<Key, Page>, n: map<Key, Page>, k: Key)
      requires Within(m, n) && k in m
      ensures k in n && m[k] == n[k]
    {
    }

    /** Marks the page as the one a fault is about, so that no hand touches it. */
    method Protect(page: Page)
      requires Sound() && page.key in Keys(view.ring) && pageMap[page.key] == page && page.data == null
      modifies this`view, repr`status
      ensures Sound() && page.key in Keys(old(view).ring) && view == CacheModel.Protect(old(view), page.key)
      ensures page.key in Keys(view.ring)
    {
      hide Valid, Keys, Ok, IndexOf, Residents, Busy, Count;
      IndexOfPage(page);
      ghost var i := IndexOf(view.ring, page.key);
      Facts(view, i, page);
      NotResident(i);
      CacheModel.ProtectOk(view, page.key);
      Mark(page, i);
    }

    method Mark(page: Page, ghost i: nat)
      requires Valid() && i < |ring| && ring[i] == page
      modifies page`status, this`view
      ensures Valid() && |old(view).ring| == |ring|
      ensures view == Put(old(view), i, old(view).ring[i].(status := ProtectedTest))
    {
      hide Distinct, Linked, Mirror;
      Others(i);
      page.status := ProtectedTest;
      Note(i, page.Snapshot());
    }

    lemma NotResident(i: nat)
      requires Sound() && i < |ring| - 1 && ring[i].data == null
      ensures ring[i].key !in Residents(view.ring)
    {
      hide Count, Linked;
      At(i);
      CacheModel.EntryOf(view, view.ring[i]);
    }

    /** A page outside the ring leaves the pages accounted for. */
    ghost method Exclude(page: Page)
      requires Valid() && page !in ring
      modifies this`repr
      ensures Valid() && repr == old(repr) - {page}
    {
      hide Linked, Mirror;
      repr := repr - {page};
    }

    ghost method Include(page: Page)
      requires Valid()
      modifies this`repr
      ensures Valid() && repr == old(repr) + {page}
    {
      hide Linked, Mirror;
      repr := repr + {page};
    }

    /** Takes a non-resident page out of the list; it stays in the page map. */
    method Detach(page: Page, ghost i: nat)
      requires Sound() && i < |ring| - 1 && ring[i] == page && page.data == null
      modifies this`pages, this`handHot, this`handCold, this`handTest, this`ring, this`view, this`repr, this`loose
      modifies this`residentColdPageCount, this`nonResidentPageCount, repr`next, repr`prev
      ensures Sound() && |old(view).ring| == |old(ring)|
      ensures view == RemoveAt(old(view), i).(nGhost := old(view).nGhost - 1)
      ensures repr == old(repr) - {page} && loose == old(loose) + {page.key} && page !in ring
    {
      hide Valid, Keys, Ok, RemoveAt, Mapped;
      Facts(view, i, page);
      RemoveFields(view, i);
      CacheModel.DetachOk(view, i);
      Detached(i);
      RemovePageFromList(page, i);
      Discount(false);
      loose := loose + {page.key};
      Remapped();
      Exclude(page);
    }

    /** Puts a page of the map back into the list, at its head. */
    method Attach(page: Page, hot: bool)
      requires Valid() && Ok(view) && page in repr && page !in ring && page.key !in Keys(view.ring)
      requires MapOf(pageMap, loose, ring, Keys(view.ring))
      requires page.key in loose && page.key in pageMap && pageMap[page.key] == page
      requires page.data != null && page.status == if hot then Hot else Test
      modifies this`pages, this`ring, this`view, this`loose, this`hotPageCount, this`residentColdPageCount
      modifies repr`next, repr`prev
      ensures Sound() && loose == old(loose) - {page.key} && page.key in Keys(view.ring)
      ensures |old(view).ring| > 0
      ensures view == if hot then Append(old(view), page.Snapshot()).(nHot := old(view).nHot + 1)
                      else Append(old(view), page.Snapshot()).(nCold := old(view).nCold + 1)
    {
      hide Valid, Keys, Ok, Append, Mapped, Inserted;
      Sizes();
      ghost var v := view;
      CacheModel.AppendCounts(v, page.Snapshot());
      AppendedKeys(v, page.Snapshot());
      Reattached(page);
      AddPageToList(page);
      Recount(hot);
      loose := loose - {page.key};
      CacheModel.AttachOk(v, page.Snapshot(), view);
      Remapped();
    }

    /** `update_page_count` with `Inc` */
    method Recount(hot: bool)
      requires Valid()
      modifies this`view, this`hotPageCount, this`residentColdPageCount
      ensures Valid()
      ensures view == if hot then old(view).(nHot := old(view).nHot + 1) else old(view).(nCold := old(view).nCold + 1)
    {
      hide Distinct, Linked, Mirror;
      if hot {
        hotPageCount := hotPageCount + 1;
        view := view.(nHot := view.nHot + 1);
      } else {
        residentColdPageCount := residentColdPageCount + 1;
        view := view.(nCold := view.nCold + 1);
      }
    }

    static lemma AppendedKeys(c: Clock, e: Entry)
      requires Ok(c) && e.key !in Keys(c.ring) && e.status != End
      ensures Keys(Append(c, e).ring) == Keys(c.ring) + {e.key}
    {
      hide Count;
      AppendOk(c, e);
    }

    lemma Outside(page: Page)
      requires Sound() && page !in repr && page.key in loose
      ensures page !in ring && page.key !in Keys(view.ring) && page.key in pageMap
      ensures MapOf(pageMap, loose, ring, Keys(view.ring))
    {
    }

    lemma Reattached(page: Page)
      requires MapOf(pageMap, loose, ring, Keys(view.ring)) && page.key in loose
      requires page.key in pageMap && pageMap[page.key] == page && page.key !in Keys(view.ring)
      ensures MapOf(pageMap, loose - {page.key}, Inserted(ring, page), Keys(view.ring) + {page.key})
    {
      var s := Inserted(ring, page);
      forall k | k in pageMap && k !in loose - {page.key} ensures pageMap[k] in s[..|s| - 1] {
        if k != page.key {
          var j :| 0 <= j < |ring| - 1 && ring[j] == pageMap[k];
          assert s[j] == pageMap[k];
        } else {
          assert s[|s| - 2] == page;
        }
      }
    }

    /** `replace_page_data` */
    method ReplacePageData(page: Page, data: Buffer)
      requires Sound() && page.key in Keys(view.ring) && pageMap[page.key] == page
      requires page.status == ProtectedTest && page.data == null
      modifies this, repr`next, repr`prev, repr`status, repr`refd, page`data, page`status
      ensures Sound() && page.key in Keys(old(view).ring)
      ensures IndexOf(old(view).ring, page.key) < |old(view).ring|
      ensures old(view).ring[IndexOf(old(view).ring, page.key)].status == ProtectedTest
      ensures view == CacheModel.Replace(old(view), page.key)
      ensures page.data == data && page.key in Keys(view.ring) && pageMap[page.key] == page
      ensures repr == old(repr) && loose == old(loose) && Within(pageMap, old(pageMap))
    {
      hide Valid, Keys, Ok, IndexOf, RemoveAt, Append, ClockHands.RunHandHot, Mapped;
      IndexOfPage(page);
      ghost var v, i := view, IndexOf(view.ring, page.key);
      Facts(v, i, page);
      Detach(page, i);
      page.status := Hot;
      page.data := data;
      RunHandHot(false);
      Outside(page);
      Include(page);

      Attach(page, true);
    }

    lemma Detached(i: nat)
      requires Sound() && i < |ring| - 1
      ensures |view.ring| == |ring|
      ensures MapOf(pageMap, loose + {ring[i].key}, ring[..i] + ring[i + 1..], Keys(RemoveAt(view, i).ring))
    {
      hide Linked, Distinct, RemoveAt, Keys, Ok;
      assert Shape(view) by { CacheModel.ShapeOf(view); }
      Others(i);
      RemoveKeys(view, i);
      InSets(view.ring, i);
      StillIn(ring, i, pageMap, loose);
    }

    /** `add_page_data` */
    method AddPageData(key: Key, data: Buffer) returns (page: Page)
      requires Sound() && loose == {} && key !in pageMap
      modifies this, repr`next, repr`prev
      ensures Sound() && loose == {} && |old(view).ring| > 0 && view == CacheModel.Admit(old(view), key)
      ensures fresh(page) && repr == old(repr) + {page} && page.key == key && page.data == data
      ensures key in Keys(view.ring) && pageMap == old(pageMap)[key := page]
    {
      hide Valid, Keys, Ok, Append, Mapped;
      page := new Page(key, Test, data);
      Sizes();
      Included(page);
      Include(page);
      pageMap := pageMap[key := page];
      loose := {key};
      Attach(page, false);
    }

    lemma Included(page: Page)
      requires Sound() && loose == {} && page.key !in pageMap
      ensures page.key !in Keys(view.ring)
      ensures forall p :: p in ring ==> p in repr
      ensures MapOf(pageMap[page.key := page], {page.key}, ring, Keys(view.ring))
    {
    }

    /** A hit: `mark_refd` */
    method MarkRefd(page: Page)
      requires Sound() && page.key in Keys(view.ring) && pageMap[page.key] == page && page.data != null
      modifies this`view, page`refd
      ensures Sound() && page.key in Keys(old(view).ring) && view == CacheModel.Touch(old(view), page.key)
    {
      hide Distinct, Linked, Mirror, Keys, Ok, IndexOf;
      IndexOfPage(page);
      ghost var i := IndexOf(view.ring, page.key);
      Facts(view, i, page);
      Others(i);
      PutSame(view, i);
      TouchOk(view, i);
      page.refd := true;
      Note(i, page.Snapshot());
    }

    static lemma TouchOk(c: Clock, i: nat)
      requires Ok(c) && i < |c.ring| - 1
      ensures Ok(Put(c, i, c.ring[i].(refd := true)))
    {
      hide Count;
      PutOk(c, i, c.ring[i].(refd := true));
    }

    /** The last share of a page is dropped. */
    method Unlock(page: Page)
      requires Sound() && page.key in Keys(view.ring) && pageMap[page.key] == page && page.data != null
      modifies this`view, page`locked
      ensures Sound() && page.key in Keys(old(view).ring) && view == CacheModel.Unlock(old(view), page.key)
    {
      hide Distinct, Linked, Mirror, Keys, Ok, IndexOf;
      IndexOfPage(page);
      ghost var i := IndexOf(view.ring, page.key);
      Facts(view, i, page);
      Others(i);
      EntryOfPage(page);
      CacheModel.UnlockOk(view, page.key);
      page.locked := false;
      Note(i, page.Snapshot());
    }

    lemma EntryOfPage(page: Page)
      requires Sound() && page.key in Keys(view.ring) && pageMap[page.key] == page
      ensures page.Snapshot() == view.ring[IndexOf(view.ring, page.key)]
      ensures page.data != null <==> page.key in Residents(view.ring)
      ensures page in repr
    {
      hide Count, Linked;
      IndexOfPage(page);
      At(IndexOf(view.ring, page.key));
      CacheModel.EntryAt(view, page.key);
    }
  }
}
