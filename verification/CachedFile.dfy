/** The paged file over the page cache and the OS file: its bytes and its length, through hits, misses and evictions. */
module CachedFile {
  import opened Bytes
  import opened PagedFile
  import opened ClockModel
  import opened PageRing
  import opened PageCache
  import opened OsFile
  import CacheModel

  datatype Op = Read(pos: nat, size: nat) | Write(pos: nat, buf: seq<Byte>) | Sync

  /** The length after a run */
  ghost function LenRun(len: nat, ops: seq<Op>, pageLen: nat): nat
    requires pageLen > 0
  {
    if ops == [] then len
    else
      var n, op := LenRun(len, ops[..|ops| - 1], pageLen), ops[|ops| - 1];
      if op.Write? then LenAfter(n, op.pos, |op.buf|, pageLen) else n
  }

  /** No write begins in a page after the end of the file it finds. */
  ghost predicate AllNear(len: nat, ops: seq<Op>, pageLen: nat)
    requires pageLen > 0
  {
    forall i :: 0 <= i < |ops| && ops[i].Write? && ops[i].buf != [] ==>
      PageId(ops[i].pos, pageLen) * pageLen <= LenRun(len, ops[..i], pageLen)
  }

  /** What an operation does to a plain file */
  ghost predicate Plain(was: seq<Byte>, op: Op, now: seq<Byte>, pageLen: nat)
    requires pageLen > 0
  {
    if op.Write? then Wrote(was, now, op.pos, op.buf, pageLen) else now == was
  }

  class CachedFile {
    const pageLen: nat
    const scope: nat
    const cache: PageCache
    var len: nat
    /** The length the OS file was last cut to */
    var synced: nat
    /** What is in a page that nobody has written */
    const stale: seq<Byte>
    /** No write so far began in a page after the end. */
    ghost var near: bool

    function Shape(): Extent
      reads this`len, this`synced
    {
      Extent(scope, pageLen, len, synced)
    }

    ghost predicate Valid()
      reads this, cache, cache.inner, cache.inner.ring, cache.inner.pageMap.Values, cache.Buffers()
    {
      && pageLen > 0 && |stale| == pageLen && cache.Valid() && Paged(cache.state)
      && NoneMore(cache.state, Shape()) && (near ==> AllBacked(cache.state, Shape()))
    }

    /** The length of the OS file */
    ghost function OsLength(): nat
      reads this`len, this`synced, cache`state
    {
      OsLen(Shape(), cache.state.store.written)
    }

    ghost predicate Resident(s: CacheModel.Cache, id: nat) {
      Key(scope, id) in s.data
    }

    /** A page of this file is unwritten, or whole. */
    ghost predicate Paged(s: CacheModel.Cache) {
      forall id: nat :: Held(s, id) == [] || IsPage(Held(s, id))
    }

    ghost function Held(s: CacheModel.Cache, id: nat): CacheModel.Bytes {
      CacheModel.Content(s, Key(scope, id))
    }

    predicate IsPage(b: seq<int>) {
      |b| == pageLen && forall i :: 0 <= i < |b| ==> 0 <= b[i] < 256
    }

    ghost function Page(s: CacheModel.Cache, id: nat): (p: seq<Byte>)
      requires |stale| == pageLen && Paged(s)
      ensures |p| == pageLen
    {
      if Held(s, id) == [] then stale else Held(s, id)
    }

    ghost function ByteIn(s: CacheModel.Cache, i: nat): Byte
      requires |stale| == pageLen > 0 && Paged(s)
    {
      Page(s, PageId(i, pageLen))[Offset(i, pageLen)]
    }

    ghost function Flat(): (f: seq<Byte>)
      requires |stale| == pageLen > 0 && Paged(cache.state)
      reads this, cache
      ensures |f| == len && forall i :: 0 <= i < len ==> f[i] == ByteIn(cache.state, i)
    {
      var s := cache.state;
      seq(len, i requires 0 <= i && Paged(s) => ByteIn(s, i))
    }

    /** The file is opened: its length is that of the OS file. */
    constructor (cache: PageCache, scope: nat, pageLen: nat, stale: seq<Byte>, osLen: nat)
      requires cache.Valid() && pageLen > 0 && |stale| == pageLen
      requires forall k :: k in cache.state.store.written ==> k.scope != scope
      requires forall id: nat :: var b := CacheModel.Content(cache.state, Key(scope, id));
        b == [] || (|b| == pageLen && forall i :: 0 <= i < |b| ==> 0 <= b[i] < 256)
      ensures Valid() && near && this.cache == cache && this.pageLen == pageLen && this.scope == scope
      ensures len == osLen == OsLength()
    {
      hide PageCache.Valid, CacheModel.Content, Flat;
      this.cache, this.scope, this.pageLen, this.stale := cache, scope, pageLen, stale;
      len, synced, near := osLen, osLen, true;
      new;
      assert cache.Buffers() == old(cache.Buffers());
      assert cache.Valid();
      forall id: nat ensures Held(cache.state, id) == [] || IsPage(Held(cache.state, id)) { }
      CutBacks(cache.state, Shape());
    }

    // ------------------------------------------------------------------------ one page

    lemma Fetched(key: Key)
      requires cache.Valid()
      ensures CacheModel.Good(cache.state, cache.Options())
      ensures var r := CacheModel.Fetch(cache.state, key, cache.Options());
        && Later(cache.state, r) && r.data.Keys <= cache.state.data.Keys + {key}
        && (forall k :: CacheModel.Content(r, k) == CacheModel.Content(cache.state, k))
        && (key in cache.state.data ==> r.data == cache.state.data && r.store == cache.state.store)
        && (key !in cache.state.data ==> !CacheModel.Dirty(r, key))
        && CacheModel.Roomy(cache.state, r, if key in cache.state.data then 0 else 1, cache.Options())
    {
      hide CacheModel.Content;
      var s, o := cache.state, cache.Options();
      CacheModel.FetchWrites(s, key, o);
      if CacheModel.Resident(s.clock) < o.maxResident { CacheModel.FetchRoomy(s, key, o); }
      if key !in s.data {
        CacheModel.FetchGood(s, key, o);
      }
    }

    lemma Stores(key: Key, bytes: CacheModel.Bytes)
      requires cache.Valid()
      ensures CacheModel.Good(cache.state, cache.Options())
      ensures var r := CacheModel.WritePage(cache.state, key, bytes, cache.Options());
        && Later(cache.state, r) && r.data.Keys <= cache.state.data.Keys + {key} && CacheModel.Dirty(r, key)
        && (forall k :: CacheModel.Content(r, k) == if k == key then bytes else CacheModel.Content(cache.state, k))
        && CacheModel.Roomy(cache.state, r, if key in cache.state.data then 0 else 1, cache.Options())
    {
      Fetched(key);
      hide CacheModel.Content, CacheModel.Good, PageCache.Valid, Later, CacheModel.Fetch, CacheModel.Dirty;
      LaterPut(cache.state, CacheModel.Fetch(cache.state, key, cache.Options()), key, CacheModel.Buf(bytes, true));
    }

    lemma SameStore()
      requires cache.Valid()
      ensures cache.state.store == cache.store
    {
    }

    /** `Cache::page`: nothing that can be read has changed. */
    method GetPage(id: nat) returns (page: seq<Byte>, hit: bool)
      requires Valid()
      modifies cache, cache.inner, cache.inner.repr, cache.Buffers()
      ensures Valid() && page == Page(old(cache.state), id) && hit == old(Resident(cache.state, id))
      ensures forall k: nat :: Page(cache.state, k) == Page(old(cache.state), k)
      ensures !hit ==> !OsFile.Dirty(cache.state, Shape(), id)
      ensures forall k: nat :: Resident(cache.state, k) ==> k == id || Resident(old(cache.state), k)
      ensures Resident(cache.state, id) && CacheModel.Roomy(old(cache.state), cache.state, 1, cache.Options())
      ensures hit ==> cache.state.store == old(cache.state.store)
      ensures fresh(cache.inner.repr - old(cache.inner.repr)) && fresh(cache.Buffers() - old(cache.Buffers()))
    {
      hide PageCache.Valid, CacheModel.Fetch, CacheModel.Content, CacheModel.Good, NoneMore, AllBacked, Later;
      ghost var s := cache.state;
      var key := Key(scope, id);
      Fetched(key);
      hit := cache.Has(key);
      var b := cache.ReadPage(key);
      assert b == Held(s, id);
      page := if b == [] then stale else b;
      forall k: nat ensures Held(cache.state, k) == Held(s, k) { }
      LaterAll(s, cache.state, Shape());
    }

    /**
     * `Cache::page` and, on a miss, `FileScope::read`: the length is what it was exactly if the page was resident or is
     * after the end, or the OS file has all of it that is in the file; else the file ends where the OS file does, or where
     * the page begins.
     */
    method Load(id: nat) returns (page: seq<Byte>)
      requires Valid()
      modifies this`len, cache, cache.inner, cache.inner.repr, cache.Buffers()
      ensures Valid() && page == Page(old(cache.state), id)
      ensures forall k: nat :: Page(cache.state, k) == Page(old(cache.state), k)
      ensures len <= old(len) && (near ==> len == old(len))
      ensures len == old(len) <==>
        || old(Resident(cache.state, id)) || id * pageLen >= old(len)
        || OsLength() >= (id + 1) * pageLen || OsLength() == old(len)
      ensures len != old(len) ==> len == id * pageLen + Span(id, OsLength(), pageLen)
      ensures forall k: nat :: Resident(cache.state, k) ==> k == id || Resident(old(cache.state), k)
      ensures Resident(cache.state, id) && CacheModel.Roomy(old(cache.state), cache.state, 1, cache.Options())
      ensures fresh(cache.inner.repr - old(cache.inner.repr)) && fresh(cache.Buffers() - old(cache.Buffers()))
    {
      hide PageCache.Valid, NoneMore, AllBacked, OsSpan, Span, Paged, Page, Inside, CacheModel.Roomy;
      var hit: bool;
      page, hit := GetPage(id);
      ghost var x := Shape();
      SameStore();
      if !hit {
        LoadedExactlyWhen(cache.state, x, id);
        OsSpanIs(x, cache.state.store.written, id);
        Shorten(id);
      }
    }

    /** `Load`, and what it does to the length if nobody has the page */
    method LoadMissing(id: nat) returns (page: seq<Byte>)
      requires Valid()
      modifies this`len, cache, cache.inner, cache.inner.repr, cache.Buffers()
      ensures Valid() && page == Page(old(cache.state), id)
      ensures forall k: nat :: Page(cache.state, k) == Page(old(cache.state), k)
      ensures len <= old(len) && (near ==> len == old(len))
      ensures old(Missing(id)) ==> len == id * pageLen
      ensures fresh(cache.inner.repr - old(cache.inner.repr)) && fresh(cache.Buffers() - old(cache.Buffers()))
    {
      hide PageCache.Valid, NoneMore, AllBacked, Paged, Page;
      page := Load(id);
      Begins(id, id, pageLen);
    }

    /** `FileScope::read`, where the OS file ends in the page */
    method Shorten(id: nat)
      modifies this`len
      ensures Shape() == Loaded(old(Shape()), cache.store.written, id)
    {
      if Inside(Shape(), id) {
        var n := OsSpan(Shape(), cache.store.written, id);
        if n != pageLen {
          len := id * pageLen + n;
        }
      }
    }

    /** The bytes of a write guard, in a page that was just loaded */
    method Store(id: nat, page: seq<Byte>)
      requires Valid() && |page| == pageLen && Resident(cache.state, id)
      modifies cache, cache.inner, cache.inner.repr, cache.Buffers()
      ensures Valid() && forall k: nat :: Page(cache.state, k) == if k == id then page else Page(old(cache.state), k)
      ensures OsFile.Dirty(cache.state, Shape(), id)
      ensures forall k: nat :: Resident(cache.state, k) ==> k == id || Resident(old(cache.state), k)
      ensures CacheModel.Roomy(old(cache.state), cache.state, 0, cache.Options())
      ensures fresh(cache.inner.repr - old(cache.inner.repr)) && fresh(cache.Buffers() - old(cache.Buffers()))
    {
      hide PageCache.Valid, CacheModel.WritePage, CacheModel.Content, CacheModel.Good, NoneMore, AllBacked, Later;
      ghost var s := cache.state;
      Stores(Key(scope, id), page);
      cache.WritePage(Key(scope, id), page);
      forall k: nat ensures Held(cache.state, k) == if k == id then page else Held(s, k) { }
      LaterAll(s, cache.state, Shape());
    }

    // ------------------------------------------------------------------------ reading

    lemma ByteOf(s: CacheModel.Cache, id: nat, offset: nat)
      requires |stale| == pageLen && Paged(s) && offset < pageLen
      ensures ByteIn(s, id * pageLen + offset) == Page(s, id)[offset]
    {
      Locate(id, offset, pageLen);
    }

    lemma SameBytes(s: CacheModel.Cache, t: CacheModel.Cache)
      requires |stale| == pageLen > 0 && Paged(s) && Paged(t) && forall k: nat :: Page(s, k) == Page(t, k)
      ensures forall i: nat :: ByteIn(s, i) == ByteIn(t, i)
    {
      hide Page, Paged, PageId, Offset;
    }

    ghost predicate SameAs(s: CacheModel.Cache)
      requires |stale| == pageLen > 0 && Paged(s) && Paged(cache.state)
      reads cache`state
    {
      forall i: nat :: ByteIn(cache.state, i) == ByteIn(s, i)
    }

    /** A page of the file that the cache does not have, the OS file has nothing of, and there is a free buffer for */
    ghost predicate Missing(id: nat)
      reads this`len, this`synced, cache`state
    {
      && !Resident(cache.state, id) && id * pageLen < len && OsLength() <= id * pageLen
      && CacheModel.Resident(cache.state.clock) < cache.inner.maxResident
    }

    /** One turn of the loop of `read_at`: what the page has from the position on, or a stop if it ends before that */
    method ReadInPage(pos: nat, buf: array<Byte>, at: nat) returns (n: nat, stopped: bool)
      requires Valid() && at < buf.Length
      modifies this`len, cache, cache.inner, cache.inner.repr, cache.Buffers(), buf
      ensures Valid() && len <= old(len) && (near ==> len == old(len)) && SameAs(old(cache.state))
      ensures at + n <= buf.Length
      ensures n > 0 <==> pos < len
      ensures n == 0 || pos + n <= len
      ensures stopped <==> pos > len && Offset(pos, pageLen) > 0
      ensures old(Missing(PageId(pos, pageLen))) ==> n == 0 && len == PageId(pos, pageLen) * pageLen
      ensures forall i :: at <= i < at + n ==> buf[i] == ByteIn(cache.state, pos + (i - at))
      ensures forall i :: 0 <= i < buf.Length && !(at <= i < at + n) ==> buf[i] == old(buf[i])
      ensures fresh(cache.inner.repr - old(cache.inner.repr)) && fresh(cache.Buffers() - old(cache.Buffers()))
    {
      hide PageId, Offset, Span, ByteIn, Page, Paged, PageCache.Valid, NoneMore, AllBacked;
      var id, offset := PageId(pos, pageLen), Offset(pos, pageLen);
      ghost var t := cache.state;
      var page := LoadMissing(id);
      SameBytes(cache.state, t);
      SpanAt(pos, len, pageLen);
      var span := Span(id, len, pageLen);
      n, stopped := 0, span < offset;
      if span > offset {
        n := Min(span - offset, buf.Length - at);
        Located(pos, pageLen);
        File.CopyOut(page, offset, n, buf, at);
        forall i | at <= i < at + n ensures buf[i] == ByteIn(cache.state, pos + (i - at)) {
          ByteOf(t, id, offset + (i - at));
        }
      }
    }

    /**
     * `read_at`, which panics where a page ends before the position. It never makes the file longer; if no write began in a
     * page after the end, the file is what it was, and what is read is the matching slice. A page that nobody has cuts the
     * file off where it begins.
     */
    method ReadAt(pos: nat, buf: array<Byte>) returns (read: nat, stopped: bool)
      requires Valid()
      modifies this`len, cache, cache.inner, cache.inner.repr, cache.Buffers(), buf
      ensures Valid() && len <= old(len) && read <= buf.Length
      ensures forall i :: read <= i < buf.Length ==> buf[i] == old(buf[i])
      ensures near ==>
        && Flat() == old(Flat())
        && (stopped <==> buf.Length > 0 && pos > len && Offset(pos, pageLen) > 0)
        && read == (if pos < len then Min(buf.Length, len - pos) else 0)
        && (pos <= len ==> buf[..read] == Flat()[pos..pos + read])
      ensures buf.Length > 0 && old(Missing(PageId(pos, pageLen))) ==> read == 0 && len == PageId(pos, pageLen) * pageLen
      ensures fresh(cache.inner.repr - old(cache.inner.repr)) && fresh(cache.Buffers() - old(cache.Buffers()))
    {
      hide PageId, Offset, ByteIn, Paged, PageCache.Valid, NoneMore, AllBacked, Missing;
      ghost var s, missing := cache.state, Missing(PageId(pos, pageLen));
      read, stopped := 0, false;
      while read < buf.Length
        invariant Valid() && read <= buf.Length && len <= old(len) && (near ==> len == old(len))
        invariant near ==> read == 0 || pos + read <= len
        invariant SameAs(s) && (missing ==> read == 0 && Missing(PageId(pos, pageLen)))
        invariant forall i :: 0 <= i < read ==> buf[i] == ByteIn(s, pos + i)
        invariant forall i :: read <= i < buf.Length ==> buf[i] == old(buf[i])
        invariant fresh(cache.inner.repr - old(cache.inner.repr)) && fresh(cache.Buffers() - old(cache.Buffers()))
        decreases buf.Length - read
      {
        var n: nat;
        n, stopped := ReadInPage(pos + read, buf, read);
        if stopped {
          return;
        }
        if n == 0 {
          break;
        }
        read := read + n;
      }
    }

    // ------------------------------------------------------------------------ writing

    /** Exactly these bytes are different. */
    ghost predicate Put(s: CacheModel.Cache, t: CacheModel.Cache, pos: nat, chunk: seq<Byte>)
      requires |stale| == pageLen > 0 && Paged(s) && Paged(t)
    {
      forall i: nat :: ByteIn(t, i) == Written(ByteIn(s, i), pos, chunk, i)
    }

    /** The bytes of a write guard */
    method Fill(id: nat, offset: nat, chunk: seq<Byte>, page: seq<Byte>, ghost pos: nat)
      requires Valid() && chunk != [] && offset + |chunk| <= pageLen && pos == id * pageLen + offset
      requires Resident(cache.state, id) && page == Page(cache.state, id)
      modifies cache, cache.inner, cache.inner.repr, cache.Buffers()
      ensures Valid() && Put(old(cache.state), cache.state, pos, chunk) && OsFile.Dirty(cache.state, Shape(), id)
      ensures forall k: nat :: Resident(cache.state, k) ==> k == id || Resident(old(cache.state), k)
      ensures CacheModel.Roomy(old(cache.state), cache.state, 0, cache.Options())
      ensures fresh(cache.inner.repr - old(cache.inner.repr)) && fresh(cache.Buffers() - old(cache.Buffers()))
    {
      hide Page, Paged, PageCache.Valid, NoneMore, AllBacked, OsFile.Dirty, CacheModel.Roomy, PageId, Offset, Resident;
      ghost var s := cache.state;
      Store(id, page[..offset] + chunk + page[offset + |chunk|..]);
      forall i: nat ensures ByteIn(cache.state, i) == Written(ByteIn(s, i), pos, chunk, i) {
        InPage(i, id, offset, |chunk|, pageLen);
      }
    }

    /** The page is loaded and the bytes put into it. */
    method Change(id: nat, offset: nat, chunk: seq<Byte>, ghost pos: nat)
      requires Valid() && chunk != [] && offset + |chunk| <= pageLen && pos == id * pageLen + offset
      modifies this`len, cache, cache.inner, cache.inner.repr, cache.Buffers()
      ensures Valid() && (near || id * pageLen >= old(len) ==> len == old(len))
      ensures Put(old(cache.state), cache.state, pos, chunk) && OsFile.Dirty(cache.state, Shape(), id)
      ensures forall k: nat :: Resident(cache.state, k) ==> k == id || Resident(old(cache.state), k)
      ensures CacheModel.Roomy(old(cache.state), cache.state, 1, cache.Options())
      ensures fresh(cache.inner.repr - old(cache.inner.repr)) && fresh(cache.Buffers() - old(cache.Buffers()))
    {
      hide PageId, Offset, Span, Page, Paged, PageCache.Valid, NoneMore, AllBacked, OsLen, OsFile.Dirty, ByteIn, Resident;
      ghost var s := cache.state;
      var page := Load(id);
      SameBytes(cache.state, s);
      Fill(id, offset, chunk, page, pos);
    }

    /** One write guard, with the length set when it is dropped */
    method WriteInPage(id: nat, offset: nat, chunk: seq<Byte>, ghost pos: nat)
      requires Valid() && chunk != [] && offset + |chunk| <= pageLen && pos == id * pageLen + offset
      modifies this`len, this`near, cache, cache.inner, cache.inner.repr, cache.Buffers()
      ensures Valid() && near == (old(near) && id * pageLen <= old(len))
      ensures near || id * pageLen >= old(len) ==> len == LenAfter(old(len), pos, |chunk|, pageLen)
      ensures Put(old(cache.state), cache.state, pos, chunk)
      ensures forall k: nat :: Resident(cache.state, k) ==> k == id || Resident(old(cache.state), k)
      ensures CacheModel.Roomy(old(cache.state), cache.state, 1, cache.Options())
      ensures fresh(cache.inner.repr - old(cache.inner.repr)) && fresh(cache.Buffers() - old(cache.Buffers()))
    {
      hide Span, LenAfter, LenOnDrop, Paged, PageCache.Valid, NoneMore, AllBacked, OsFile.Dirty, Put, Resident,
        CacheModel.Roomy;
      near := near && id * pageLen <= len;
      Change(id, offset, chunk, pos);
      LenOnDropIs(len, id, offset, |chunk|, pageLen);
      DroppedKeeps(cache.state, Shape(), id, offset + |chunk|);
      Drop(id, offset + |chunk|);
    }

    /** `PageWriteGuard::drop` */
    method Drop(id: nat, newLen: nat)
      modifies this`len
      ensures Shape() == Dropped(old(Shape()), id, newLen)
    {
      var oldLen := Span(id, len, pageLen);
      if newLen != oldLen {
        var newFileLen := id * pageLen + newLen;
        if (if newLen > oldLen then len < newFileLen else len > newFileLen) {
          len := newFileLen;
        }
      }
    }

    /**
     * `write_at`. The length is as for the file in one piece if the write, and every one before it, begins in a page of the
     * file or just after it, or if this one begins in a page after the end; in the first case so are the bytes.
     */
    method WriteAt(pos: nat, buf: seq<Byte>)
      requires Valid()
      modifies this`len, this`near, cache, cache.inner, cache.inner.repr, cache.Buffers()
      ensures Valid() && near == (old(near) && (buf == [] || PageId(pos, pageLen) * pageLen <= old(len)))
      ensures near || PageId(pos, pageLen) * pageLen >= old(len) ==> len == LenAfter(old(len), pos, |buf|, pageLen)
      ensures near ==> Wrote(old(Flat()), Flat(), pos, buf, pageLen)
      ensures near && pos <= old(len) ==> Flat() == Overwrite(old(Flat()), pos, buf, pageLen)
      ensures forall k: nat :: Resident(cache.state, k) ==> k >= PageId(pos, pageLen) || Resident(old(cache.state), k)
      ensures CacheModel.Roomy(old(cache.state), cache.state, |buf|, cache.Options())
      ensures fresh(cache.inner.repr - old(cache.inner.repr)) && fresh(cache.Buffers() - old(cache.Buffers()))
    {
      hide PageId, Offset, LenAfter, ByteIn, Page, Paged, PageCache.Valid, NoneMore, AllBacked, Resident;
      ghost var s, first := cache.state, PageId(pos, pageLen);
      var done := 0;
      assert LenAfter(len, pos, 0, pageLen) == len by { ZeroWrite(len, pos, pageLen); }
      while done < |buf|
        invariant done <= |buf| && Valid()
        invariant near == (old(near) && (done == 0 || first * pageLen <= old(len)))
        invariant near || first * pageLen >= old(len) ==> len == LenAfter(old(len), pos, done, pageLen)
        invariant done == 0 || done == |buf| || Offset(pos + done, pageLen) == 0
        invariant Put(s, cache.state, pos, buf[..done])
        invariant forall k: nat :: Resident(cache.state, k) ==> k >= first || Resident(s, k)
        invariant CacheModel.Roomy(s, cache.state, done, cache.Options())
        invariant fresh(cache.inner.repr - old(cache.inner.repr)) && fresh(cache.Buffers() - old(cache.Buffers()))
      {
        var id, offset := PageId(pos + done, pageLen), Offset(pos + done, pageLen);
        var n := Min(|buf| - done, pageLen - offset);
        Located(pos + done, pageLen);
        NextPage(pos + done, pageLen);
        LenAfterMore(old(len), pos, done, n, pageLen);
        PageGrows(pos, done, pageLen);
        PageGrows(pos + done, 0, pageLen);
        if done > 0 { LenAtLeast(old(len), pos, done, pageLen); }
        assert buf[..done + n] == buf[..done] + buf[done..done + n];
        WriteInPage(id, offset, buf[done..done + n], pos + done);
        done := done + n;
      }
      assert buf[..done] == buf;
      if near && pos <= old(len) { OverwriteIs(old(Flat()), Flat(), pos, buf, pageLen); }
    }

    /** `sync_all`: the store has the pages of the file, the OS file is as long as it, and the file is what it was. */
    method SyncAll()
      requires Valid()
      modifies this`synced, cache, cache.Buffers()
      ensures Valid() && Flat() == old(Flat()) && OsLength() == len
      ensures forall id: nat :: CacheModel.Stored(cache.store, Key(scope, id)) == Held(cache.state, id)
      ensures cache.Buffers() == old(cache.Buffers())
    {
      hide CacheModel.Flush, CacheModel.Content, CacheModel.Good, CacheModel.Stored, ByteIn, PageCache.Shown, CacheInner.Sound,
        NoneMore, AllBacked, OsLen;
      ghost var s := cache.state;
      cache.Flush(scope);
      ghost var t := cache.state;
      cache.Cut(scope);
      synced := len;
      CutKeeps(t);
      forall k: nat ensures Held(cache.state, k) == Held(s, k) { }
      SameBytes(cache.state, s);
      CutBacks(cache.state, Shape());
    }

    method Apply(op: Op)
      requires Valid() && near && (op.Write? && op.buf != [] ==> PageId(op.pos, pageLen) * pageLen <= len)
      modifies this`len, this`synced, this`near, cache, cache.inner, cache.inner.repr, cache.Buffers()
      ensures Valid() && near && Plain(old(Flat()), op, Flat(), pageLen)
      ensures len == if op.Write? then LenAfter(old(len), op.pos, |op.buf|, pageLen) else old(len)
      ensures fresh(cache.inner.repr - old(cache.inner.repr)) && fresh(cache.Buffers() - old(cache.Buffers()))
    {
      hide PageCache.Valid, NoneMore, AllBacked, Paged, Flat, Wrote, Overwrite, PageId, Offset, LenAfter, Missing, OsLen, Resident;
      match op
      case Read(pos, size) =>
        var buf := new Byte[size](_ => 0);
        var read, stopped := ReadAt(pos, buf);
      case Write(pos, buf) =>
        WriteAt(pos, buf);
      case Sync =>
        SyncAll();
    }

    /** Over every run in which no write begins in a page after the end, the file is what a plain file would be. */
    method Run(ops: seq<Op>) returns (ghost trace: seq<seq<Byte>>)
      requires Valid() && near && AllNear(len, ops, pageLen)
      modifies this`len, this`synced, this`near, cache, cache.inner, cache.inner.repr, cache.Buffers()
      ensures Valid() && near && len == LenRun(old(len), ops, pageLen)
      ensures |trace| == |ops| + 1 && trace[0] == old(Flat()) && trace[|ops|] == Flat()
      ensures forall i :: 0 <= i < |ops| ==> Plain(trace[i], ops[i], trace[i + 1], pageLen)
    {
      hide PageCache.Valid, NoneMore, AllBacked, Paged, Flat, Plain, PageId, LenAfter;
      trace := [Flat()];
      for k := 0 to |ops|
        invariant Valid() && near && len == LenRun(old(len), ops[..k], pageLen)
        invariant |trace| == k + 1 && trace[0] == old(Flat()) && trace[k] == Flat()
        invariant forall i :: 0 <= i < k ==> Plain(trace[i], ops[i], trace[i + 1], pageLen)
        invariant fresh(cache.inner.repr - old(cache.inner.repr)) && fresh(cache.Buffers() - old(cache.Buffers()))
      {
        assert ops[..k + 1][..k] == ops[..k] && ops[..k + 1][k] == ops[k];
        Apply(ops[k]);
        trace := trace + [Flat()];
      }
      assert ops[..|ops|] == ops;
    }

    lemma CutKeeps(t: CacheModel.Cache)
      ensures var r := CacheModel.Cut(t, scope);
        && (forall k :: CacheModel.Content(r, k) == CacheModel.Content(t, k))
        && (forall k :: CacheModel.Stored(r.store, k) == CacheModel.Stored(t.store, k))
        && (forall k :: k in r.store.written ==> k.scope != scope)
    {
    }
  }

  /**
   * A write that begins in a page after the end of a new file, with room in the cache: the byte is there, and gone with the
   * next read of the page before it.
   */
  method FarWriteIsLost(pageLen: nat, stale: seq<Byte>, maxResident: nat, maxNonResident: nat, b: Byte, buf: array<Byte>)
    returns (grown: nat, read: nat, left: nat)
    requires pageLen > 0 && |stale| == pageLen && maxResident >= 2 && buf.Length > 0
    modifies buf
    ensures grown == pageLen + 1 && read == 0 && left == 0
  {
    hide PageCache.Valid, NoneMore, AllBacked, CachedFile.Paged, CachedFile.Flat, Wrote, Overwrite, PageId;
    var cache := new PageCache(maxResident, maxNonResident);
    var file := new CachedFile(cache, 0, pageLen, stale, 0);
    Locate(1, 0, pageLen);
    Locate(0, 0, pageLen);
    file.WriteAt(pageLen, [b]);
    grown := file.len;
    var stopped: bool;
    read, stopped := file.ReadAt(0, buf);
    left := file.len;
  }
}
