/** The page cache in memory: the page ring, the buffers its pages own, and the store. */
module PageCache {
  import opened ClockModel
  import opened ClockHands
  import opened PageRing
  import CacheModel

  class PageCache {
    const inner: CacheInner
    var store: CacheModel.Store
    ghost var state: CacheModel.Cache

    ghost function Options(): CacheModel.Options {
      CacheModel.Options(inner.maxResident, inner.maxNonResident)
    }

    ghost function Buffers(): set<Buffer>
      reads inner`pageMap, inner.pageMap.Values`data
    {
      set k | k in inner.pageMap && inner.pageMap[k].data != null :: inner.pageMap[k].data
    }

    /** Each of these pages has its buffer, shared with no other, and this in it */
    ghost predicate Shown(data: map<Key, CacheModel.Buf>)
      reads inner`pageMap, inner.pageMap.Values`data, Buffers()
    {
      && (forall k :: k in data ==> k in inner.pageMap && inner.pageMap[k].data != null)
      && (forall k :: k in data ==>
            inner.pageMap[k].data.bytes == data[k].bytes && inner.pageMap[k].data.dirty == data[k].dirty)
      && (forall k, l :: k in data && l in data && k != l ==> inner.pageMap[k].data != inner.pageMap[l].data)
    }

    /** The heap is the cache `state` */
    ghost predicate Valid()
      reads this, inner, inner.ring, inner.pageMap.Values, Buffers()
    {
      && inner.Sound() && inner.loose == {}
      && state.clock == inner.view && state.store == store
      && CacheModel.Good(state, Options())
      && Shown(state.data)
    }

    constructor (maxResident: nat, maxNonResident: nat)
      requires maxResident > 0
      ensures Valid() && fresh(inner) && fresh(inner.repr) && Buffers() == {}
      ensures state.data == map[] && state.store == CacheModel.Store(map[], {})
      ensures CacheModel.Resident(state.clock) == 0 && inner.maxResident == maxResident
    {
      inner := new CacheInner(maxResident, maxNonResident);
      store := CacheModel.Store(map[], {});
      new;
      state := CacheModel.Cache(CacheModel.Empty(), map[], CacheModel.Store(map[], {}));
      hide CacheModel.Empty, CacheModel.Idle, Residents;
      CacheModel.EmptyIdle(Options());
    }

    /** `acquire_page_data`, with no I/O going on: a new buffer, or the victim's */
    method AcquirePageData() returns (donor: Option<Key>, data: Buffer)
      requires inner.Sound() && (inner.view.nHot + inner.view.nCold >= inner.maxResident ==> Reclaimable(inner.view.ring))
      modifies inner, inner.repr`next, inner.repr`prev, inner.repr`status, inner.repr`refd, inner.repr`data, inner.repr`locked
      ensures inner.Sound() && (inner.view, donor) == CacheModel.MakeRoom(old(inner.view), Options())
      ensures inner.repr == old(inner.repr) && inner.loose == old(inner.loose)
      ensures Within(inner.pageMap, old(inner.pageMap))
      ensures donor.None? ==> fresh(data) && !data.dirty
      ensures donor.None? ==> forall p :: p in inner.repr ==> p.data == old(p.data)
      ensures donor.Some? ==>
        && donor.value in old(inner.pageMap)
        && data == old(inner.pageMap[donor.value].data) && old(inner.pageMap)[donor.value].data == null
      ensures donor.Some? ==>
        forall p :: p in inner.repr && p != old(inner.pageMap)[donor.value] ==> p.data == old(p.data)
    {
      hide Ok, Reclaimable, RunHandCold, CacheInner.Mapped;
      inner.Sizes();
      inner.At(0);
      if inner.hotPageCount + inner.residentColdPageCount < inner.maxResident {
        data := new Buffer([]);
        donor := None;
      } else {
        var key: Key;
        key, data := inner.RunHandCold();
        donor := Some(key);
      }
    }

    lemma MappedPages()
      requires inner.Sound() && inner.loose == {}
      ensures inner.pageMap.Keys == Keys(inner.view.ring)
      ensures forall k :: k in inner.pageMap ==> inner.pageMap[k].key == k
    {
    }

    /** A miss on a page still in its test period */
    method PlaceAgain(key: Key) returns (page: Page, donor: Option<Key>, data: Buffer)
      requires inner.Sound() && inner.loose == {} && CacheModel.Idle(inner.view, Options())
      requires key !in Residents(inner.view.ring) && inner.maxResident > 0 && key in inner.pageMap
      modifies inner, inner.repr`next, inner.repr`prev, inner.repr`status, inner.repr`refd, inner.repr`data, inner.repr`locked
      ensures inner.Sound() && inner.loose == {}
      ensures (inner.view, donor) == CacheModel.Place(old(inner.view), key, Options())
      ensures key in inner.pageMap && inner.pageMap[key] == page && page.key == key && page.data == data
      ensures page in old(inner.repr) || fresh(page)
      ensures inner.repr <= old(inner.repr) + {page}
      ensures key in Keys(inner.view.ring)
      ensures donor.None? ==> fresh(data) && !data.dirty
      ensures donor.Some? ==> donor.value in old(inner.pageMap) && data == old(inner.pageMap[donor.value].data)
      ensures forall k :: k in inner.pageMap && k != key ==>
        && k in old(inner.pageMap) && inner.pageMap[k] == old(inner.pageMap)[k]
        && inner.pageMap[k].data == if Some(k) == donor then null else old(inner.pageMap[k].data)
    {
      hide Ok, Reclaimable, CacheInner.Valid, IndexOf, CacheModel.MakeRoom, CacheModel.Idle, Residents, CacheModel.Faulted;
      hide CacheModel.Replace, CacheModel.Protect, Keys, CacheInner.Sound, CacheInner.Mapped;
      CacheModel.FaultOk(inner.view, key, Options());
      MappedPages();
      page := inner.pageMap[key];
      inner.EntryOfPage(page);
      inner.Protect(page);
      donor, data := AcquirePageData();
      MappedPages();
      inner.EntryOfPage(page);
      inner.ReplacePageData(page, data);
      MappedPages();
    }

    /** A miss on a page the clock does not know */
    method PlaceNew(key: Key) returns (page: Page, donor: Option<Key>, data: Buffer)
      requires inner.Sound() && inner.loose == {} && CacheModel.Idle(inner.view, Options())
      requires key !in Residents(inner.view.ring) && inner.maxResident > 0 && key !in inner.pageMap
      modifies inner, inner.repr`next, inner.repr`prev, inner.repr`status, inner.repr`refd, inner.repr`data, inner.repr`locked
      ensures inner.Sound() && inner.loose == {}
      ensures (inner.view, donor) == CacheModel.Place(old(inner.view), key, Options())
      ensures key in inner.pageMap && inner.pageMap[key] == page && page.key == key && page.data == data
      ensures page in old(inner.repr) || fresh(page)
      ensures inner.repr <= old(inner.repr) + {page}
      ensures key in Keys(inner.view.ring)
      ensures donor.None? ==> fresh(data) && !data.dirty
      ensures donor.Some? ==> donor.value in old(inner.pageMap) && data == old(inner.pageMap[donor.value].data)
      ensures forall k :: k in inner.pageMap && k != key ==>
        && k in old(inner.pageMap) && inner.pageMap[k] == old(inner.pageMap)[k]
        && inner.pageMap[k].data == if Some(k) == donor then null else old(inner.pageMap[k].data)
    {
      hide Ok, Reclaimable, CacheInner.Valid, IndexOf, CacheModel.MakeRoom, CacheModel.Idle, Residents, CacheModel.Faulted;
      hide CacheModel.Admit, Keys;
      CacheModel.FaultOk(inner.view, key, Options());
      donor, data := AcquirePageData();
      page := inner.AddPageData(key, data);
    }

    /** The I/O of a miss: `write` for the donor's page, then `read` into the buffer. */
    method Transfer(key: Key, donor: Option<Key>, data: Buffer)
      modifies this`store, data
      ensures var written := if donor.None? then old(store)
                else CacheModel.WriteBack(old(store), donor.value, CacheModel.Buf(old(data.bytes), old(data.dirty)));
        store == written && data.bytes == CacheModel.Stored(written, key) && !data.dirty
    {
      if donor.Some? && data.dirty {
        store := CacheModel.Save(store, donor.value, data.bytes);
        data.dirty := false;
      }
      data.bytes := CacheModel.Stored(store, key);
      data.dirty := false;
    }

    lemma StillMapped(data: map<Key, CacheModel.Buf>)
      requires inner.Sound() && inner.loose == {} && data.Keys == Residents(inner.view.ring)
      ensures forall k :: k in data ==> k in inner.pageMap
    {
      hide Count;
      forall k | k in data ensures k in inner.pageMap {
        ResidentKey(inner.view, k);
      }
    }

    /** The part of a miss under the mutex */
    method Place(key: Key) returns (page: Page, donor: Option<Key>, data: Buffer)
      requires inner.Sound() && inner.loose == {} && CacheModel.Idle(inner.view, Options())
      requires key !in Residents(inner.view.ring) && inner.maxResident > 0
      modifies inner, inner.repr`next, inner.repr`prev, inner.repr`status, inner.repr`refd, inner.repr`data, inner.repr`locked
      ensures inner.Sound() && inner.loose == {}
      ensures (inner.view, donor) == CacheModel.Place(old(inner.view), key, Options())
      ensures key in inner.pageMap && inner.pageMap[key] == page && page.key == key && page.data == data
      ensures page in old(inner.repr) || fresh(page)
      ensures inner.repr <= old(inner.repr) + {page} && Buffers() <= old(Buffers()) + {data}
      ensures key in Keys(inner.view.ring)
      ensures donor.None? ==> fresh(data) && !data.dirty
      ensures donor.Some? ==> donor.value in old(inner.pageMap) && data == old(inner.pageMap[donor.value].data)
      ensures forall k :: k in inner.pageMap && k != key ==>
        && k in old(inner.pageMap) && inner.pageMap[k] == old(inner.pageMap)[k]
        && (Some(k) != donor ==> inner.pageMap[k].data == old(inner.pageMap[k].data))
    {
      hide *;
      ghost var b := Buffers();
      InBuffers();
      if key in inner.pageMap {
        page, donor, data := PlaceAgain(key);
      } else {
        page, donor, data := PlaceNew(key);
      }
      BuffersWithin(b + {data});
    }

    lemma InBuffers()
      ensures forall k :: k in inner.pageMap && inner.pageMap[k].data != null ==> inner.pageMap[k].data in Buffers()
    {
    }

    lemma BuffersWithin(b: set<Buffer>)
      requires forall k :: k in inner.pageMap && inner.pageMap[k].data != null ==> inner.pageMap[k].data in b
      ensures Buffers() <= b
    {
    }

    /** Who owns which buffer, and what is in it */
    static ghost predicate Owns(own: map<Key, Buffer>, data: map<Key, CacheModel.Buf>)
      reads own.Values
    {
      && own.Keys == data.Keys
      && (forall k :: k in own ==> own[k].bytes == data[k].bytes && own[k].dirty == data[k].dirty)
      && (forall k, l :: k in own && l in own && k != l ==> own[k] != own[l])
    }

    ghost predicate Owned(own: map<Key, Buffer>)
      reads inner`pageMap, inner.pageMap.Values`data
    {
      forall k :: k in own ==> k in inner.pageMap && own[k] == inner.pageMap[k].data
    }

    ghost method Owners() returns (own: map<Key, Buffer>)
      requires Shown(state.data)
      ensures Owns(own, state.data) && own.Values <= Buffers() && own.Keys == state.data.Keys && Owned(own)
    {
      own := map k | k in state.data :: inner.pageMap[k].data;
    }

    lemma ShownBy(own: map<Key, Buffer>, data: map<Key, CacheModel.Buf>)
      requires Owns(own, data) && Owned(own)
      ensures Shown(data)
    {
    }

    /** The heap having come to show `r`, so does the ghost. */
    ghost method Become(r: CacheModel.Cache, own: map<Key, Buffer>)
      requires inner.Sound() && inner.loose == {} && r.clock == inner.view && r.store == store
      requires CacheModel.Good(r, Options()) && Owns(own, r.data) && Owned(own)
      modifies this`state
      ensures Valid() && state == r
    {
      hide CacheInner.Sound, CacheModel.Good;
      state := r;
      ShownBy(own, r.data);
    }

    /** The donor's buffer changes hands. */
    static ghost function Passed(own: map<Key, Buffer>, key: Key, donor: Option<Key>, buffer: Buffer): map<Key, Buffer> {
      (own - (if donor.None? then {} else {donor.value}))[key := buffer]
    }

    lemma OwnsRefill(own: map<Key, Buffer>, data: map<Key, CacheModel.Buf>, key: Key, donor: Option<Key>,
                     buffer: Buffer, b: CacheModel.Buf)
      requires own.Keys == data.Keys && key !in own
      requires forall k, l :: k in own && l in own && k != l ==> own[k] != own[l]
      requires forall k :: k in own && own[k] != buffer ==> own[k].bytes == data[k].bytes && own[k].dirty == data[k].dirty
      requires if donor.Some? then donor.value in own && own[donor.value] == buffer else buffer !in own.Values
      requires buffer.bytes == b.bytes && buffer.dirty == b.dirty
      ensures var out := if donor.None? then {} else {donor.value};
        Owns(Passed(own, key, donor, buffer), (data - out)[key := b])
    {
      var out := if donor.None? then {} else {donor.value};
      forall k | k in own - out ensures own[k] != buffer {
        if donor.None? { assert own[k] in own.Values; }
      }
    }

    /** Pages still mapped keep their buffers, except the donor. */
    ghost predicate Kept(own: map<Key, Buffer>, donor: Option<Key>)
      reads inner`pageMap, inner.pageMap.Values`data
    {
      forall k :: k in own && k in inner.pageMap && Some(k) != donor ==> inner.pageMap[k].data == own[k]
    }

    /** Buffers other than this one have the bytes they had. */
    static ghost predicate Intact(own: map<Key, Buffer>, data: map<Key, CacheModel.Buf>, buffer: Buffer)
      reads own.Values
    {
      && own.Keys == data.Keys
      && (forall k :: k in own && own[k] != buffer ==> own[k].bytes == data[k].bytes && own[k].dirty == data[k].dirty)
      && (forall k, l :: k in own && l in own && k != l ==> own[k] != own[l])
    }

    lemma RefillOwned(own: map<Key, Buffer>, s: CacheModel.Cache, r: CacheModel.Cache, key: Key, donor: Option<Key>,
                      buffer: Buffer)
      requires Intact(own, s.data, buffer) && key !in own && Kept(own, donor)
      requires if donor.Some? then donor.value in own && own[donor.value] == buffer else buffer !in own.Values
      requires r == CacheModel.Refill(s, key, r.clock, donor)
      requires inner.Sound() && inner.loose == {} && r.clock == inner.view && CacheModel.Good(r, Options())
      requires key in inner.pageMap && inner.pageMap[key].data == buffer
      requires buffer.bytes == CacheModel.Stored(r.store, key) && !buffer.dirty
      ensures Owns(Passed(own, key, donor, buffer), r.data) && Owned(Passed(own, key, donor, buffer))
    {
      hide CacheModel.Stored, CacheModel.WriteBack, CacheInner.Sound, Residents, CacheModel.Idle;
      OwnsRefill(own, s.data, key, donor, buffer, CacheModel.Buf(buffer.bytes, false));
      StillMapped(r.data);
    }

    /** `Place`, as the owners see it */
    method PlaceOwned(key: Key, ghost own: map<Key, Buffer>) returns (page: Page, donor: Option<Key>, data: Buffer)
      requires inner.Sound() && inner.loose == {} && CacheModel.Good(state, Options()) && state.clock == inner.view
      requires key !in state.data && Owns(own, state.data)
      requires Owned(own)
      modifies inner, inner.repr`next, inner.repr`prev, inner.repr`status, inner.repr`refd, inner.repr`data, inner.repr`locked
      ensures inner.Sound() && inner.loose == {}
      ensures (donor.Some? ==> donor.value in state.data)
      ensures key in inner.pageMap && inner.pageMap[key] == page && page.key == key && page.data == data
      ensures page in old(inner.repr) || fresh(page)
      ensures inner.repr <= old(inner.repr) + {page} && Buffers() <= old(Buffers()) + {data}
      ensures Ok(inner.view) && key in Keys(inner.view.ring)
      ensures CacheModel.Fetch(state, key, Options()) ==
        CacheModel.Refill(state, key, CacheModel.Unlock(inner.view, key), donor)
      ensures donor.None? ==> fresh(data) && data !in own.Values
      ensures donor.Some? ==> own[donor.value] == data
      ensures Kept(own, donor) && Owns(own, state.data)
    {
      hide CacheModel.Idle, Residents, CacheModel.Place, Keys, CacheModel.Fetch, CacheModel.Refill, CacheModel.Unlock,
        CacheInner.Sound;
      page, donor, data := Place(key);
      CacheModel.FetchMiss(state, key, Options(), inner.view, donor);
    }

    method TransferOwned(key: Key, donor: Option<Key>, data: Buffer, ghost own: map<Key, Buffer>)
      requires Owns(own, state.data)
      requires if donor.Some? then donor.value in own && own[donor.value] == data else data !in own.Values
      modifies this`store, data
      ensures Intact(own, state.data, data)
      ensures var written := if donor.None? then old(store)
                else CacheModel.WriteBack(old(store), donor.value, state.data[donor.value]);
        store == written && data.bytes == CacheModel.Stored(written, key) && !data.dirty
    {
      hide CacheModel.WriteBack, CacheModel.Stored;
      Transfer(key, donor, data);
    }

    /** The I/O of a miss, and the end of it: `finish_io` opens the page. */
    method Finish(key: Key, page: Page, donor: Option<Key>, data: Buffer, ghost own: map<Key, Buffer>)
      requires inner.Sound() && inner.loose == {} && key in Keys(inner.view.ring)
      requires key in inner.pageMap && inner.pageMap[key] == page && page.key == key && page.data == data
      requires Owns(own, state.data) && Kept(own, donor)
      requires if donor.Some? then donor.value in own && own[donor.value] == data else data !in own.Values
      modifies this`store, data, inner`view, page`locked
      ensures inner.Sound() && inner.view == CacheModel.Unlock(old(inner.view), key)
      ensures Intact(own, state.data, data) && Kept(own, donor)
      ensures var written := if donor.None? then old(store)
                else CacheModel.WriteBack(old(store), donor.value, state.data[donor.value]);
        store == written && data.bytes == CacheModel.Stored(written, key) && !data.dirty
    {
      hide CacheInner.Sound, Residents, Keys, CacheModel.Unlock, CacheModel.WriteBack, CacheModel.Stored, Kept, Intact, Owns;
      TransferOwned(key, donor, data, own);
      inner.Unlock(page);
    }

    /** A miss, with its I/O */
    method Miss(key: Key) returns (page: Page)
      requires Valid() && key !in state.data
      modifies this, inner, inner.repr, Buffers()
      ensures Valid() && state == CacheModel.Fetch(old(state), key, Options())
      ensures key in inner.pageMap && inner.pageMap[key] == page
      ensures page.data != null && (page.data in old(Buffers()) || fresh(page.data))
      ensures fresh(inner.repr - old(inner.repr)) && fresh(Buffers() - old(Buffers()))
    {
      hide CacheInner.Sound, Residents, Keys, CacheModel.Unlock, CacheModel.Idle, CacheModel.WriteBack;
      hide CacheModel.Stored, Shown, CacheModel.Fetch, CacheModel.Good, Kept, Intact, Owns, Owned, Passed, Buffers;
      ghost var s := state;
      ghost var own := Owners();
      var donor: Option<Key>, data: Buffer;
      page, donor, data := PlaceOwned(key, own);
      ghost var b := Buffers();
      Finish(key, page, donor, data, own);
      assert Buffers() == b;
      RefillOwned(own, s, CacheModel.Fetch(s, key, Options()), key, donor, data);
      Become(CacheModel.Fetch(s, key, Options()), Passed(own, key, donor, data));
    }

    lemma PageFacts(key: Key)
      requires inner.Sound() && inner.loose == {} && key in inner.pageMap
      requires CacheModel.Good(state, Options()) && state.clock == inner.view
      ensures var page := inner.pageMap[key];
        && page.key == key && key in Keys(inner.view.ring) && page in inner.repr
        && (page.data != null <==> key in state.data) && (page.locked <==> page.data == null)
    {
      hide Count, Residents, Keys, CacheInner.Valid;
      inner.EntryOfPage(inner.pageMap[key]);
      CacheModel.EntryAt(inner.view, key);
    }

    /** A hit */
    method Hit(key: Key) returns (page: Page)
      requires Valid() && key in state.data
      modifies this`state, inner`view, inner.repr`refd
      ensures Valid() && state == CacheModel.Fetch(old(state), key, Options())
      ensures key in inner.pageMap && inner.pageMap[key] == page && page.data in old(Buffers())
      ensures inner.repr == old(inner.repr) && Buffers() == old(Buffers())
    {
      hide CacheInner.Sound, Residents, Keys, CacheModel.Idle, Count, CacheModel.Touch;
      StillMapped(state.data);
      CacheModel.FetchGood(state, key, Options());
      page := inner.pageMap[key];
      PageFacts(key);
      ghost var s := state;
      inner.MarkRefd(page);
      state := CacheModel.Fetch(s, key, Options());
    }

    /** `Cache::page`: the page, resident, with its buffer */
    method GetPage(key: Key) returns (page: Page)
      requires Valid()
      modifies this, inner, inner.repr, Buffers()
      ensures Valid() && state == CacheModel.Fetch(old(state), key, Options())
      ensures key in inner.pageMap && inner.pageMap[key] == page
      ensures page.data != null && (page.data in old(Buffers()) || fresh(page.data))
      ensures fresh(inner.repr - old(inner.repr)) && fresh(Buffers() - old(Buffers()))
    {
      hide CacheInner.Sound, Residents, Keys, CacheModel.Good, CacheModel.Fetch;
      if key in inner.pageMap { PageFacts(key); }
      if key in inner.pageMap && !inner.pageMap[key].locked {
        page := Hit(key);
      } else {
        page := Miss(key);
      }
    }

    /** Whether a call for the page is a hit */
    method Has(key: Key) returns (hit: bool)
      requires Valid()
      ensures hit <==> key in state.data
    {
      hide CacheInner.Sound, Residents, Keys, CacheModel.Idle, Count;
      StillMapped(state.data);
      if key in inner.pageMap { PageFacts(key); }
      hit := key in inner.pageMap && !inner.pageMap[key].locked;
    }

    /** The bytes a reader finds under `PageRef::read` */
    method ReadPage(key: Key) returns (bytes: CacheModel.Bytes)
      requires Valid()
      modifies this, inner, inner.repr, Buffers()
      ensures Valid() && state == CacheModel.Fetch(old(state), key, Options())
      ensures bytes == CacheModel.Content(old(state), key)
      ensures fresh(inner.repr - old(inner.repr)) && fresh(Buffers() - old(Buffers()))
    {
      hide CacheInner.Sound, Residents, Keys, CacheModel.Good, CacheModel.Fetch;
      var page := GetPage(key);
      bytes := page.data.bytes;
      assert bytes == CacheModel.Content(state, key);
    }

    static method PutOwned(ghost own: map<Key, Buffer>, ghost data: map<Key, CacheModel.Buf>, buffer: Buffer, ghost key: Key,
                           bytes: CacheModel.Bytes, dirty: bool)
      requires Owns(own, data) && key in own && own[key] == buffer
      modifies buffer
      ensures Owns(own, data[key := CacheModel.Buf(bytes, dirty)])
    {
      buffer.bytes := bytes;
      buffer.dirty := dirty;
    }

    /** A write guard on the page, dropped after these bytes are in it */
    method WritePage(key: Key, bytes: CacheModel.Bytes)
      requires Valid()
      modifies this, inner, inner.repr, Buffers()
      ensures Valid() && state == CacheModel.WritePage(old(state), key, bytes, Options())
      ensures fresh(inner.repr - old(inner.repr)) && fresh(Buffers() - old(Buffers()))
    {
      hide CacheInner.Sound, Residents, Keys, CacheModel.Good, CacheModel.Fetch, Shown, Owns, Owned;
      ghost var s := state;
      var page := GetPage(key);
      ghost var own := Owners();
      PutOwned(own, state.data, page.data, key, bytes, true);
      Become(CacheModel.WritePage(s, key, bytes, Options()), own);
    }

    /** `Cache::write` of one dirty page */
    method FlushPage(key: Key, ghost s: CacheModel.Cache, ghost done: set<Key>, ghost own: map<Key, Buffer>)
      requires done <= s.data.Keys && key in s.data && key !in done && s.data[key].dirty
      requires CacheModel.FlushPages(s, done) == state && state.store == store
      requires Owns(own, state.data) && Owned(own) && key in own
      modifies this, own.Values
      ensures state == CacheModel.FlushPages(s, done + {key}) && state.store == store
      ensures Owns(own, state.data) && Owned(own)
    {
      hide CacheModel.FlushPages;
      CacheModel.FlushOneMore(s, done, key);
      var data := inner.pageMap[key].data;
      store := CacheModel.Save(store, key, data.bytes);
      PutOwned(own, state.data, data, key, data.bytes, false);
      state := CacheModel.FlushPages(s, done + {key});
    }

    method WriteDirtyPages(dirty: set<Key>, ghost own: map<Key, Buffer>)
      requires dirty <= own.Keys == state.data.Keys && (forall k :: k in dirty ==> state.data[k].dirty) && state.store == store
      requires Owns(own, state.data) && Owned(own)
      modifies this, own.Values
      ensures state == CacheModel.FlushPages(old(state), dirty) && state.store == store && Owns(own, state.data)
    {
      hide CacheModel.FlushPages, Owns, Owned;
      ghost var s := state;
      var left := dirty;
      ghost var done: set<Key> := {};
      CacheModel.FlushNone(s);
      while left != {}
        invariant done !! left && done + left == dirty
        invariant state == CacheModel.FlushPages(s, done) && state.store == store
        invariant Owns(own, state.data) && Owned(own)
        decreases |left|
      {
        var key :| key in left;
        FlushPage(key, s, done, own);
        done, left := done + {key}, left - {key};
      }
      assert done == dirty;
    }

    /** `flush` of the scope: `find_dirty_pages`, then `write` for each */
    method Flush(scope: nat)
      requires Valid()
      modifies this, Buffers()
      ensures Valid() && state == CacheModel.Flush(old(state), scope, Options())
    {
      hide CacheInner.Sound, Residents, Keys, CacheModel.Good, CacheModel.FlushPages, Owns, Shown, Owned;
      ghost var s := state;
      ghost var own := Owners();
      var dirty := FindDirtyPages(scope);
      WriteDirtyPages(dirty, own);
      Become(CacheModel.Flush(s, scope, Options()), own);
    }

    /** `sync_len`: the file behind the scope is cut to its length, which no page shows. */
    method Cut(scope: nat)
      requires Valid()
      modifies this
      ensures Valid() && state == CacheModel.Cut(old(state), scope)
    {
      hide CacheInner.Sound, Residents, Keys, CacheModel.Idle;
      store := store.(written := set k | k in store.written && k.scope != scope);
      state := CacheModel.Cut(state, scope);
    }

    method FindDirtyPages(scope: nat) returns (dirty: set<Key>)
      requires Valid()
      ensures dirty == CacheModel.DirtyPages(state, scope)
    {
      hide CacheInner.Sound, Residents, Keys, CacheModel.Idle;
      StillMapped(state.data);
      forall k | k in inner.pageMap ensures inner.pageMap[k].locked <==> k !in state.data { PageFacts(k); }
      dirty := set k | k in inner.pageMap && k.scope == scope && !inner.pageMap[k].locked && inner.pageMap[k].data.dirty;
    }
  }
}
