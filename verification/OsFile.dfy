/**
 * How long the file below a cached file is, how much of a page a miss can read of it, and when that is enough: the pages
 * that were written back or flushed since the file was last cut to its length, and that length.
 */
module OsFile {
  import opened Bytes
  import opened PagedFile
  import opened ClockModel
  import CacheModel

  /** The file's part in the cache: its scope, the length of a page, its length, and the one it was last cut to */
  datatype Extent = Extent(scope: nat, pageLen: nat, len: nat, synced: nat)

  /** A page that far or farther was written. */
  predicate Reaches(scope: nat, written: set<Key>, id: nat) {
    exists k :: k in written && k.scope == scope && k.id >= id
  }

  /** How much of a page the OS file has */
  function OsSpan(x: Extent, written: set<Key>, id: nat): (n: nat)
    ensures n <= x.pageLen
  {
    if Reaches(x.scope, written, id) then x.pageLen else Span(id, x.synced, x.pageLen)
  }

  // ------------------------------------------------------------------------ the length

  lemma {:induction false} MaxExists(s: set<nat>)
    requires s != {}
    ensures exists m :: m in s && forall x :: x in s ==> x <= m
  {
    var x :| x in s;
    var t := s - {x};
    if t == {} {
      assert s == t + {x};
    } else {
      MaxExists(t);
      var m :| m in t && forall y :: y in t ==> y <= m;
      var top := if x > m then x else m;
      forall y | y in s ensures y <= top { assert y == x || y in t; }
      assert top in s;
    }
  }

  /** How many pages the pages written make the file long */
  ghost function Pages(scope: nat, written: set<Key>): (n: nat)
    ensures forall id: nat :: id < n <==> Reaches(scope, written, id)
  {
    var ids: set<nat> := set k | k in written && k.scope == scope :: k.id;
    if ids == {} then
      (assert forall k :: k in written && k.scope == scope ==> k.id in ids; 0)
    else
      MaxExists(ids);
      var m :| m in ids && forall y :: y in ids ==> y <= m;
      assert forall k :: k in written && k.scope == scope ==> k.id in ids;
      m + 1
  }

  /** The length of the OS file: that of the last cut, or up to the end of the last page written since */
  ghost function OsLen(x: Extent, written: set<Key>): nat {
    var n := Pages(x.scope, written) * x.pageLen;
    if n > x.synced then n else x.synced
  }

  lemma OsSpanIs(x: Extent, written: set<Key>, id: nat)
    requires x.pageLen > 0
    ensures OsSpan(x, written, id) == Span(id, OsLen(x, written), x.pageLen)
  {
    var n, p := Pages(x.scope, written), x.pageLen;
    if id < n {
      Begins(id + 1, n, p);
    } else {
      Begins(n, id, p);
    }
  }

  lemma Begins(i: nat, j: nat, pageLen: nat)
    requires i <= j
    ensures i * pageLen <= j * pageLen && (i + 1) * pageLen == i * pageLen + pageLen
  {
  }

  /** A page that a later position is not before is full. */
  lemma SpanFull(i: nat, j: nat, len: nat, pageLen: nat)
    requires i < j && j * pageLen <= len
    ensures Span(i, len, pageLen) == pageLen && (pageLen > 0 ==> i * pageLen < len)
  {
    Begins(i + 1, j, pageLen);
    Begins(i, i, pageLen);
  }

  // ------------------------------------------------------------------------ what a miss can count on

  ghost predicate Dirty(s: CacheModel.Cache, x: Extent, id: nat) {
    CacheModel.Dirty(s, Key(x.scope, id))
  }

  /** A page is in the file. */
  predicate Inside(x: Extent, id: nat) { id * x.pageLen < x.len }

  /** A miss on the page would not raise the length. */
  ghost predicate NoMore(s: CacheModel.Cache, x: Extent, id: nat) {
    var n := OsSpan(x, s.store.written, id);
    Dirty(s, x, id) || n == x.pageLen || n <= Span(id, x.len, x.pageLen)
  }

  /** A miss on the page would find all of it. */
  ghost predicate Backed(s: CacheModel.Cache, x: Extent, id: nat) {
    var n := OsSpan(x, s.store.written, id);
    Dirty(s, x, id) || n == x.pageLen || n == Span(id, x.len, x.pageLen)
  }

  ghost predicate NoneMore(s: CacheModel.Cache, x: Extent) {
    forall id: nat :: Inside(x, id) ==> NoMore(s, x, id)
  }

  ghost predicate AllBacked(s: CacheModel.Cache, x: Extent) {
    forall id: nat :: Inside(x, id) ==> Backed(s, x, id)
  }

  /** What every cache operation on other pages does: a dirty page stays dirty or is written. */
  ghost predicate Later(s: CacheModel.Cache, r: CacheModel.Cache) {
    && s.store.written <= r.store.written
    && forall k :: CacheModel.Dirty(s, k) ==> CacheModel.Dirty(r, k) || k in r.store.written
  }

  lemma LaterPut(s: CacheModel.Cache, t: CacheModel.Cache, key: Key, b: CacheModel.Buf)
    requires Later(s, t) && b.dirty
    ensures var r := t.(data := t.data[key := b]); Later(s, r) && CacheModel.Dirty(r, key)
  {
  }

  lemma LaterPage(s: CacheModel.Cache, r: CacheModel.Cache, x: Extent, id: nat)
    requires Later(s, r)
    ensures NoMore(s, x, id) ==> NoMore(r, x, id)
    ensures Backed(s, x, id) ==> Backed(r, x, id)
  {
    hide Span;
    if Dirty(s, x, id) && !Dirty(r, x, id) {
      assert Key(x.scope, id) in r.store.written;
    }
  }

  lemma LaterAll(s: CacheModel.Cache, r: CacheModel.Cache, x: Extent)
    requires Later(s, r)
    ensures NoneMore(s, x) ==> NoneMore(r, x)
    ensures AllBacked(s, x) ==> AllBacked(r, x)
  {
    hide Later, NoMore, Backed;
    forall id: nat ensures NoMore(s, x, id) ==> NoMore(r, x, id) { LaterPage(s, r, x, id); }
    forall id: nat ensures Backed(s, x, id) ==> Backed(r, x, id) { LaterPage(s, r, x, id); }
  }

  /** `FileScope::read`: the length after a miss on the page */
  function Loaded(x: Extent, written: set<Key>, id: nat): Extent {
    var n := OsSpan(x, written, id);
    if Inside(x, id) && n != x.pageLen then x.(len := id * x.pageLen + n) else x
  }

  /** The length after a miss is what it was, exactly if the page is after the end or the OS file has all of it. */
  lemma LoadedExactlyWhen(s: CacheModel.Cache, x: Extent, id: nat)
    requires x.pageLen > 0 && NoneMore(s, x) && !Dirty(s, x, id)
    ensures var r, os := Loaded(x, s.store.written, id), OsLen(x, s.store.written);
      && NoneMore(s, r) && r.len <= x.len
      && (r.len == x.len <==> id * x.pageLen >= x.len || os >= (id + 1) * x.pageLen || os == x.len)
      && (AllBacked(s, x) ==> r == x)
  {
    hide OsLen;
    OsSpanIs(x, s.store.written, id);
    var r, n := Loaded(x, s.store.written, id), OsSpan(x, s.store.written, id);
    Begins(id, id, x.pageLen);
    if Inside(x, id) {
      assert NoMore(s, x, id);
      assert AllBacked(s, x) ==> Backed(s, x, id);
      forall j: nat | Inside(r, j) ensures NoMore(s, r, j) {
        ShortPage(s, x, r, id, j);
      }
    }
  }

  lemma ShortPage(s: CacheModel.Cache, x: Extent, r: Extent, id: nat, j: nat)
    requires x.pageLen > 0 && NoneMore(s, x) && Inside(x, id) && r == Loaded(x, s.store.written, id) && Inside(r, j)
    ensures NoMore(s, r, j)
  {
    if r != x {
      if j < id {
        SpanFull(j, id, r.len, x.pageLen);
      } else if j > id {
        Begins(id + 1, j, x.pageLen);
        Begins(id, id, x.pageLen);
      }
    } else {
      assert NoMore(s, x, j);
    }
  }

  /** The length when a write guard on a page is dropped */
  function Dropped(x: Extent, id: nat, newLen: nat): Extent {
    x.(len := LenOnDrop(x.len, id, newLen, x.pageLen))
  }

  /** A write keeps what misses can count on, if it does not begin in a page after the end. */
  lemma DroppedKeeps(s: CacheModel.Cache, x: Extent, id: nat, newLen: nat)
    requires x.pageLen > 0 && 0 < newLen <= x.pageLen && NoneMore(s, x) && Dirty(s, x, id)
    ensures NoneMore(s, Dropped(x, id, newLen))
    ensures AllBacked(s, x) && id * x.pageLen <= x.len ==> AllBacked(s, Dropped(x, id, newLen))
  {
    var r := Dropped(x, id, newLen);
    if r.len != x.len {
      forall j: nat | Inside(r, j)
        ensures NoMore(s, r, j)
        ensures AllBacked(s, x) && id * x.pageLen <= x.len ==> Backed(s, r, j)
      {
        DroppedPage(s, x, r, id, j);
      }
    }
  }

  lemma DroppedPage(s: CacheModel.Cache, x: Extent, r: Extent, id: nat, j: nat)
    requires x.pageLen > 0 && NoneMore(s, x) && Dirty(s, x, id)
    requires r == x.(len := r.len) && id * x.pageLen < r.len <= (id + 1) * x.pageLen && Inside(r, j)
    ensures NoMore(s, r, j)
    ensures AllBacked(s, x) && id * x.pageLen <= x.len ==> Backed(s, r, j)
  {
    if j < id {
      SpanFull(j, id, r.len, x.pageLen);
      if id * x.pageLen <= x.len {
        SpanFull(j, id, x.len, x.pageLen);
        assert AllBacked(s, x) ==> Backed(s, x, j);
      }
    } else if j > id {
      Begins(id + 1, j, x.pageLen);
    }
  }

  /** After the file is cut to its length, no page of it having been written since, misses can count on all. */
  lemma CutBacks(s: CacheModel.Cache, x: Extent)
    requires x.synced == x.len && forall k :: k in s.store.written ==> k.scope != x.scope
    ensures NoneMore(s, x) && AllBacked(s, x) && OsLen(x, s.store.written) == x.len
  {
    forall id: nat ensures !Reaches(x.scope, s.store.written, id) { }
    assert !(0 < Pages(x.scope, s.store.written));
  }
}
