# tskv, modelled and proved

`tskv` is a time-series storage engine. This project models its hardest parts in Dafny and proves what they are for.
`dafny verify dfyconfig.toml` checks everything.

| part | files |
|---|---|
| the CLOCK-Pro page cache | `Clock`, `ClockHands`, `LockedSearch`, `CacheModel` (values), `ClockLaws`, `CacheLaws` (what happens to a page), `PageRing`, `PageCache` (the linked ring and its buffers in memory) |
| the page lock and the hand-off of I/O | `PageLock` |
| the task waker | `Waker` |
| the paged file, the record log, the forward index | `PagedFile`, `OsFile`, `CachedFile` (the file over the page cache and the OS file), `RecordLog`, `RecordLaws`, `RecordFile`, `ForwardIndex`, `IndexLaws` |
| the float coder | `Words`, `Gorilla`, `GorillaDecoder` |
| the other coders | `Packing`, `Simple8b`, `Deltas`, `IntegerCoder`, `TimestampCoder`, `UnsignedCoder`, `BooleanCoder` |
| the block merge, the TSM file | `BlockMerge`, `TsmIndex`, `TsmBlocks`, `TsmFile` |
| the formats of all coders and of the index, byte by byte | `Layouts` |
| the caches of a time-series family | `Memcache`, `TseriesFamily` |

Main results:

- Over every run of reads, writes, evictions and flushes the page cache shows each page as a plain map would, and its
  ring, hands, counters and bounds hold (`Transparent`); the doubly linked ring with its three hands does exactly what
  the model on values does (`PageCache.GetPage`, `PageRing.CacheInner.RunHandCold`). The cache follows section 3 of the
  CLOCK-Pro paper (Jiang, Chen and Zhang, USENIX ATC 2005).
- The victim search ends, by the set reference bits, the locked pages in their test period and the distance to the next
  cold page it can do something about (`RunHandCold`), and takes a page whose reference bit was clear when the hand came to
  it (`SearchTakesClear`).
- A paged file over the page cache and the OS file is a plain file, over every run in which no write begins in a page after
  its end (`CachedFile.Run`).
- In every interleaving of the waker's atomic steps no wake is lost, no task is polled twice at once, none after it was
  ready, and none without a wake that asked for it (`PollsAreAskedFor`); in every interleaving of the page lock's steps in
  which no call panics, and in no other, the shared count is the number of references all along.
- Decoding undoes encoding: floats at bit level through the rotating cache (section 4.1.2 of the Gorilla paper, VLDB
  2015), simple8b, integers, timestamps, unsigned integers, booleans, and whole TSM files with their index.
- The buffered record reader finds what a plain parser finds in any bytes, and returns nothing but bytes that some record
  is written as, checksum included (`FoundIsWritten`, `ValidExactlyWhen`); logs are read back, cut ones up to the cut;
  replaying the forward index's log rebuilds the index. Records are only ever written at the end of the file.
- A field is refused if and only if its id is known under another type (`RefusedExactlyWhen`).
- The k-way merge, and over every run of puts and deletions the conservation of cells, and for each time the order in
  which they were put (`TseriesFamily.Run`).

What a call would need to know of code outside the model is a parameter: the checksum function, the encoder and decoder
of series (an inverse pair), the bytes of the Bloom filter, the size of a cell. Atomic operations are sequentially
consistent, and a step of a protocol is one of them or a section under a mutex. A panic of the source is an outcome of its
own where it matters (`Overflow`, `OutOfRange`, `Stopped`), a step with its effect on the word (`PageLock`), or a
precondition that says when it would come (`ReadAt`).

Where the code does not do what one would expect, the code is followed, and the exact condition is proved:

- A block that is the lone float sentinel is encoded but cannot be decoded (`GorillaDecoder.EncodeThenDecode`).
- A file loses what it has from a page on that is read when neither the cache nor the OS file has it, which a write that
  begins in a page after the end can bring about (`Load`, `LoadedExactlyWhen`, `FarWriteIsLost`).
- A write that ends inside the file cuts off what follows it, unless it ends with a page (`PlainExactlyWhen`).
- A log cut between data and checksum ends the reading although a valid record may follow (`FoundExactlyWhen`), a log cut
  inside data can give a record that was only data (`CutLogExactlyWhen`, `CutBringsUpData`), and after a
  replay the positions of the index are good for the first series only (`ReplayedPosition`).
- With overflow checks the integer and timestamp decoders stop where a true difference of neighbours does not fit 64
  bits, although the wrapped one was encoded (`IntegerRoundTrip`, `TimestampRoundTrip`).
- The unsigned decoder stops if its destination has capacity to spare (`UnsignedCoder.EncodeThenDecode`).
- Locked cold pages can keep the victim search going for ever (`TwoLockedPages`): the exact condition is proved for rings
  with at most one locked cold page (`OneLockedEndsExactlyWhen`), and for rings with any number of them where no page would
  turn hot (`SearchEndsExactlyWhen`).
- The guard against overflow of the lock word takes effect only for an attempt left over from before the word was last set
  to MIN_EXCLUSIVE (`ResetOnlyIfStale`, `StaleReset`), and does not keep the word from wrapping (`AttemptsUnlock`,
  `InvExactlyWhenCalm`).
- A field of a multiple of 1000 values cannot be written (`WriteOneTo`).

## Model

| member | source | states |
|---|---|---|
| `Gorilla.PutField` | tskv/src/tsm/coders/float.rs:133-192 | writing a short field, which may straddle two bytes, appends exactly its bits to the stream the bytes hold |
| `Gorilla.PutValue` | tskv/src/tsm/coders/float.rs:195-226 | writing up to 64 bits, through the rest of a byte and eight bytes more, appends exactly those bits |
| `Gorilla.PutReused` | tskv/src/tsm/coders/float.rs:90-124 | the "same window" branch appends the code of the difference in the old window |
| `Gorilla.PutWindow` | tskv/src/tsm/coders/float.rs:133-192 | 5 bits of leading zeros and 6 bits of width, 64 stored as 0 |
| `Gorilla.PutFresh` | tskv/src/tsm/coders/float.rs:125-227 | the "new window" branch appends the window and the bits inside it |
| `Gorilla.PutNext` | tskv/src/tsm/coders/float.rs:48-229 | one round appends the code of the difference and keeps the window the decoder will have |
| `Gorilla.Encode` | tskv/src/tsm/coders/float.rs:26-237 | fails exactly when a value after the first is the sentinel; otherwise the bytes hold the block's bit stream, zero-padded, at its exact length |
| `GorillaDecoder.DeltaParses` | tskv/src/tsm/coders/float.rs:395-506 | parsing the code of a difference gives the next value and the encoder's window, at the bit after it |
| `GorillaDecoder.BlockRoundTrip` | tskv/src/tsm/coders/float.rs:337-508 | parsing any bytes that hold a block's stream gives its values back, for every block but the lone sentinel |
| `GorillaDecoder.Refill` | tskv/src/tsm/coders/float.rs:360-378 | the cached word is the next bits of the stream, left-aligned, and an error exactly at its end |
| `GorillaDecoder.TakeSpliced` | tskv/src/tsm/coders/float.rs:438-458 | bits taken across a refill are the next bits of the stream |
| `GorillaDecoder.Take` | tskv/src/tsm/coders/float.rs:472-498 | the next bits of the stream, whether cached or across a refill |
| `GorillaDecoder.Next` | tskv/src/tsm/coders/float.rs:395-506 | one round through the rotating cache does the step of the bit parser, wherever that has a whole step to do |
| `GorillaDecoder.Decode` | tskv/src/tsm/coders/float.rs:337-508 | whatever the bit parser makes of a block, the decoder with its cache returns; of a stream that ends too early it returns an error or at least all values before the end |
| `GorillaDecoder.EncodeThenDecode` | tskv/src/tsm/coders/float.rs:26-237 | decoding undoes encoding if and only if the block is encodable and not the lone sentinel |
| `Layouts.FloatHead` | tskv/src/tsm/coders/float.rs:36-44 | the byte 0x10 and the first word |
| `Layouts.FloatKnown` | tskv/src/tsm/coders/float.rs:62-124 | no difference is a 0 bit, and one within the known window 10 and the bits in it |
| `Layouts.FloatFresh` | tskv/src/tsm/coders/float.rs:125-227 | any other is 11, five bits of leading zeros modulo 32, six bits of width modulo 64, and the bits in the new window, which is known from then on |
| `Layouts.FloatStream` | tskv/src/tsm/coders/float.rs:48-60 | the differences are those of neighbours, bit by bit, and the last one to the sentinel |
| `ClockModel.RemoveOk` | tskv/src/direct_io/cache.rs:503-531 | taking a page out keeps the ring, the hands in it and the true counts |
| `ClockModel.AppendOk` | tskv/src/direct_io/cache.rs:470-501 | putting a page in before the End page keeps the ring, the hands and the counts |
| `ClockModel.HandleHotEvolves` | tskv/src/direct_io/cache.rs:427-442 | sparing or demoting a hot page keeps the invariant, the resident pages and their number, and clears reference bits only |
| `ClockModel.ExpireEvolves` | tskv/src/direct_io/cache.rs:253-264 | ending a test period keeps the invariant, and removes the page exactly if it has no buffer |
| `ClockHands.TestSweep` | tskv/src/direct_io/cache.rs:247-269 | HAND_test ends after at most one cycle and keeps the invariant and the resident pages |
| `ClockHands.TestSweepRemovesOne` | tskv/src/direct_io/cache.rs:247-269 | a sweep of HAND_test takes exactly one page off the ring, out of memory and not protected, if it comes by one, and none otherwise |
| `ClockHands.HotStep` | tskv/src/direct_io/cache.rs:379-408 | one turn of HAND_hot keeps the invariant and the resident pages |
| `ClockHands.HotSweep` | tskv/src/direct_io/cache.rs:378-408 | the first loop of HAND_hot ends, by the distance to the page it will stop at |
| `ClockHands.ForceProgress` | tskv/src/direct_io/cache.rs:413-422 | a turn of the second loop clears a reference bit or comes nearer to an unlocked hot page |
| `ClockHands.HotForce` | tskv/src/direct_io/cache.rs:413-422 | the second loop ends, by (set reference bits, distance to an unlocked hot page) |
| `ClockHands.RunHandHot` | tskv/src/direct_io/cache.rs:377-424 | HAND_hot ends, keeps the invariant, and leaves a resident cold page when one is required, whenever some resident page is unlocked |
| `ClockHands.HotSweepCools` | tskv/src/direct_io/cache.rs:378-408 | the first loop turns a page cold if an unlocked, unreferenced hot page is before the place where it stops |
| `ClockHands.MoveToHeadEvolves` | tskv/src/direct_io/cache.rs:314-315 | moving a page to the list head keeps the invariant and the members |
| `ClockHands.SecondChance` | tskv/src/direct_io/cache.rs:288-315 | a locked or referenced cold page is spared: one reference bit less if it is not locked, one locked page in its test period less if it was one, no resident page lost |
| `ClockHands.Evict` | tskv/src/direct_io/cache.rs:316-346 | the victim, and no other page, loses its buffer; it stays only in its test period, and the ghosts stay within their bound |
| `ClockHands.ColdStep` | tskv/src/direct_io/cache.rs:278-351 | a turn of HAND_cold, whatever is locked, takes the page under the hand if and only if it is cold and has a buffer and is neither locked nor referenced; its buffer only, and else none |
| `ClockHands.ColdStepKeeps` | tskv/src/direct_io/cache.rs:278-351 | a turn without a victim leaves a cold page that the hand can do something about |
| `ClockHands.Nearer` | tskv/src/direct_io/cache.rs:278-351 | passing a page, or sparing the one locked page, brings such a page one turn nearer |
| `ClockHands.ColdProgress` | tskv/src/direct_io/cache.rs:278-351 | a turn without a victim lowers (set reference bits, locked pages in their test period, turns to the next cold page that the hand can do something about) |
| `ClockHands.RunHandCold` | tskv/src/direct_io/cache.rs:271-352 | the victim search ends, and exactly one resident page goes, whenever some resident page is unlocked, at most one cold page is locked, and that not as the only cold page with its test period over; in particular with no page locked (which page it is: `ClockLaws.SearchTakesClear`) |
| `LockedSearch.Rounds` | tskv/src/direct_io/cache.rs:279-352 | whatever is locked, and after any number of turns: a search still going has lost no resident page, and one that has ended exactly its victim |
| `LockedSearch.OneLockedEndsExactlyWhen` | tskv/src/direct_io/cache.rs:279-352 | with at most one locked cold page, and whatever HAND_hot does in between, the loop of `run_hand_cold` ends if and only if some cold page is unlocked or in its test period |
| `LockedSearch.SearchEndsExactlyWhen` | tskv/src/direct_io/cache.rs:279-352 | with any number of locked pages, none of which would turn hot, it ends if and only if an unlocked cold page is between the hand and the list head, or is elsewhere and at most one locked cold page is between them |
| `LockedSearch.NeverEnds` | tskv/src/direct_io/cache.rs:284-315 | without that condition no number of turns brings a victim |
| `LockedSearch.TwoLockedPages` | tskv/src/direct_io/cache.rs:284-315 | a ring with an unlocked cold page where the hand goes from one of two locked ones to the other for ever |
| `ClockLaws.HandsAfterRemove` | tskv/src/direct_io/cache.rs:503-531 | a hand on a page that goes is on the next one, and the others stay on their pages |
| `ClockLaws.HandsAfterAppend` | tskv/src/direct_io/cache.rs:470-501 | every hand stays on its page, and the new page is last in the list |
| `ClockLaws.HotStepTable` | tskv/src/direct_io/cache.rs:379-408 | HAND_hot at a hot page: left alone if locked, its bit cleared if referenced, else its test period starts; at a cold page the test period is over and one without a buffer goes; no other page changes |
| `ClockLaws.TestStepTable` | tskv/src/direct_io/cache.rs:253-264 | HAND_test at a cold page: its test period is over, and one without a buffer goes; no other page changes |
| `ClockLaws.HotSweepCount` | tskv/src/direct_io/cache.rs:378-408 | the first loop of HAND_hot turns exactly one page cold, or none |
| `ClockLaws.HandHotMakesUp` | tskv/src/direct_io/cache.rs:297-303 | with a page that can be turned cold HAND_hot turns exactly one |
| `ClockLaws.HandHotForced` | tskv/src/direct_io/cache.rs:413-422 | with no cold page left and one required exactly one page turns cold |
| `ClockLaws.HandHotUnforced` | tskv/src/direct_io/cache.rs:409-412 | with a cold page, or none required, HAND_hot ends with its first loop |
| `ClockLaws.VictimWasClear` | tskv/src/direct_io/cache.rs:279-352 | after any number of turns of any search: the victim was under the hand, unlocked and with a clear bit, when it was taken |
| `ClockLaws.SearchTakesClear` | tskv/src/direct_io/cache.rs:271-352 | and so it is for `run_hand_cold`, which runs HAND_hot first if and only if there is no cold page |
| `ClockLaws.SparedTable` | tskv/src/direct_io/cache.rs:305-315 | a cold page out of its test period that is spared loses its bit, unless locked, and is last in the list; no other page changes |
| `ClockLaws.PromotedTable` | tskv/src/direct_io/cache.rs:291-303 | a referenced page in its test period turns hot with its bit cleared, and HAND_hot keeps the number of hot pages |
| `ClockLaws.SparedIsLast` | tskv/src/direct_io/cache.rs:314-315 | every spared page is last in the list |
| `ClockLaws.EvictTable` | tskv/src/direct_io/cache.rs:316-346 | the victim leaves the clock if its test period is over, else it stays without a buffer, one more of those up to their bound |
| `CacheLaws.HitSetsBit` | tskv/src/direct_io/cache/page/internal.rs:290-292 | a hit sets the reference bit of the page, changes no other page and moves no hand |
| `CacheLaws.FaultedPage` | tskv/src/direct_io/cache.rs:533-569 | a page that comes back in its test period is hot, a new one cold and in its test period; either is last in the list |
| `CacheLaws.ReplaceCools` | tskv/src/direct_io/cache.rs:533-554 | HAND_hot makes up for a page that comes back hot if it can: as many hot pages as before |
| `CacheLaws.DonorExactlyWhen` | tskv/src/direct_io/cache.rs:354-369 | a buffer is taken from another page if and only if all are in use |
| `CacheLaws.MissWritesVictim` | tskv/src/direct_io/cache.rs:688-708 | a miss brings in a clean page, drops at most one buffer, and writes that one only if it is dirty and nothing else |
| `CacheLaws.FlushWritesScope` | tskv/src/direct_io/cache.rs:761-797 | a flush writes exactly the dirty pages of its scope, which are clean then, and leaves all other buffers and pages alone |
| `CacheModel.MakeRoomOk` | tskv/src/direct_io/cache.rs:354-369 | room for one more page: at most one donor, a page that was resident |
| `CacheModel.ReplaceOk` | tskv/src/direct_io/cache.rs:533-554 | a page that comes back in its test period is resident and counted again, within the bounds |
| `CacheModel.AttachOk` | tskv/src/direct_io/cache.rs:556-569 | a new resident page is in the ring and counted |
| `CacheModel.Place` | tskv/src/direct_io/cache.rs:637-684 | after a miss the page is in, the donor is out, and the counts are within their bounds |
| `CacheModel.Fetch` | tskv/src/direct_io/cache.rs:622-759 | a hit or a miss, with its eviction and write-back, changes the contents of no page |
| `CacheModel.WritePage` | tskv/src/direct_io/cache/page.rs:98-102 | a write changes the contents of its page only |
| `CacheModel.Flush` | tskv/src/direct_io/cache.rs:761-771 | a flush changes no contents and leaves the store with the contents of the whole scope |
| `CacheModel.FetchWrites` | tskv/src/direct_io/cache.rs:688-705 | a dirty page is written to the store before it loses its buffer, and a hit does nothing to buffers and store |
| `CacheModel.Transparent` | tskv/src/direct_io/cache.rs:622-815 | over every run of reads, writes and flushes a page's contents are those of a plain map; clean pages are those of the store; the clock invariant and its bounds hold |
| `CacheModel.FlushedRun` | tskv/src/direct_io/cache.rs:761-771 | after a run that ends in a flush the store is the plain map, for that scope |
| `PageRing.CacheInner.constructor` | tskv/src/direct_io/cache.rs:181-198 | an empty cache: the End page linked to itself, all hands on it, nothing counted or mapped |
| `PageRing.CacheInner.RemovePageFromList` | tskv/src/direct_io/cache.rs:503-520 | unlinking in place is removal from the ring; hands on the page go to the next one |
| `PageRing.CacheInner.AddPageToList` | tskv/src/direct_io/cache.rs:470-483 | linking in place puts the page before the End page |
| `PageRing.CacheInner.RemovePage` | tskv/src/direct_io/cache.rs:522-531 | the page leaves the ring, its counter and the page map |
| `PageRing.CacheInner.HandleHot` | tskv/src/direct_io/cache.rs:427-442 | the statuses and counters in place are those of the clock model |
| `PageRing.CacheInner.RunHandTest` | tskv/src/direct_io/cache.rs:247-269 | the loop over links is the HAND_test sweep of the clock model |
| `PageRing.CacheInner.SweepHot` | tskv/src/direct_io/cache.rs:378-408 | the first loop of HAND_hot over links, with its stop page, is the sweep of the clock model |
| `PageRing.CacheInner.RunHandHot` | tskv/src/direct_io/cache.rs:377-424 | both loops over links are HAND_hot of the clock model |
| `PageRing.CacheInner.GiveSecondChance` | tskv/src/direct_io/cache.rs:288-315 | for a locked or a referenced page, promotion, HAND_hot and the move to the list head in place are those of the clock model |
| `PageRing.CacheInner.EvictPage` | tskv/src/direct_io/cache.rs:316-346 | the buffer taken is the page's; status, counters, map and HAND_test as in the clock model |
| `PageRing.CacheInner.RunHandCold` | tskv/src/direct_io/cache.rs:271-352 | the victim, the page that `ClockLaws.SearchTakesClear` says, and the ring are those of the clock model, and the buffer returned is the victim's |
| `PageRing.CacheInner.ReplacePageData` | tskv/src/direct_io/cache.rs:533-554 | the page out of memory comes back hot at the list head with the given buffer |
| `PageRing.CacheInner.AddPageData` | tskv/src/direct_io/cache.rs:556-569 | a new page, in its test period and locked, is last in the list, counted and mapped |
| `PageRing.CacheInner.MarkRefd` | tskv/src/direct_io/cache/page/internal.rs:290-292 | a hit sets the reference bit and nothing else |
| `PageCache.PageCache.AcquirePageData` | tskv/src/direct_io/cache.rs:354-369 | a new buffer while there is room, else the victim's buffer |
| `PageCache.PageCache.Place` | tskv/src/direct_io/cache.rs:637-684 | the part of a miss under the mutex is the fault of the model; only the donor's buffer changes hands |
| `PageCache.PageCache.Transfer` | tskv/src/direct_io/cache.rs:692-708 | a dirty donor is written to its page before the buffer is filled with the new page, clean |
| `PageCache.PageCache.Miss` | tskv/src/direct_io/cache.rs:634-759 | a miss on the heap is the miss of the model, and no two pages share a buffer |
| `PageCache.PageCache.GetPage` | tskv/src/direct_io/cache.rs:622-759 | hit or miss, the heap is the model after a fetch |
| `PageCache.PageCache.ReadPage` | tskv/src/direct_io/cache/page.rs:132-134 | the bytes read are the contents of the page |
| `PageCache.PageCache.WritePage` | tskv/src/direct_io/cache/page.rs:98-102 | a write on the heap is the write of the model |
| `PageCache.PageCache.FindDirtyPages` | tskv/src/direct_io/cache.rs:781-797 | exactly the dirty resident pages of the scope |
| `PageCache.PageCache.Flush` | tskv/src/direct_io/cache.rs:761-771 | the loop over dirty pages is the flush of the model |
| `Waker.InvNext` | tskv/src/runtime/task.rs:52-131 | every atomic step of a poller or a waker keeps the protocol's invariant |
| `Waker.OnePoller` | tskv/src/runtime/task.rs:52-109 | in every interleaving the task is queued or polled at most once |
| `Waker.NoLostWake` | tskv/src/runtime/task.rs:89-109 | in every interleaving, when a wake has returned and no poll has begun since it was called, the status is not WAITING and a poll is still to begin, or the task is complete |
| `Waker.WakeIsFollowedByPoll` | tskv/src/runtime/task.rs:89-131 | once the task is at rest, a poll has begun since each call of wake, or the task is complete |
| `Waker.NoPollAfterReady` | tskv/src/runtime/task.rs:56-65 | in every interleaving the future is not polled again after it was ready |
| `Waker.PollsAreAskedFor` | tskv/src/runtime/task.rs:52-131 | in every interleaving, at every point, the polls begun are at most one more than the wakes that changed the status |
| `Waker.PendingRests` | tskv/src/runtime/task.rs:60-63 | a pending poll that was not woken leaves the task WAITING, in no queue and in nobody's hands |
| `PageLock.InvNext` | tskv/src/direct_io/cache/page/lock.rs:43-89 | every atomic step of the lock and of the I/O hand-off keeps the invariant, except the increment of a call that then panics, which breaks it |
| `PageLock.InvExactlyWhenCalm` | tskv/src/direct_io/cache/page/lock.rs:43-89 | the invariant holds all along an interleaving if and only if no call in it panics |
| `PageLock.SharesAreReferences` | tskv/src/direct_io/cache/page/lock.rs:43-62 | in every interleaving in which no call panics the word is exclusive with no share out, or it is the number of references and of shares to claim |
| `PageLock.ExclusiveWhenFree` | tskv/src/direct_io/cache/page/lock.rs:69-78 | the exclusive lock is taken exactly when there is no share and no owner |
| `PageLock.SharedUnlessExclusive` | tskv/src/direct_io/cache/page/lock.rs:43-56 | a reference is given exactly when nobody has the page exclusively; failed attempts count for nothing |
| `PageLock.IoGivesShares` | tskv/src/direct_io/cache/page/internal.rs:106-131 | finishing an I/O gives one share to the initiator and one to each registered waiter, and no more |
| `PageLock.ResetOnlyIfStale` | tskv/src/direct_io/cache/page/lock.rs:50-53 | a failed attempt sets the word back exactly if it finds again what it saw, and then the word has been set to MIN_EXCLUSIVE since |
| `PageLock.GuardNeverActs` | tskv/src/direct_io/cache/page/lock.rs:50-53 | where no attempt outlives that, none ever sets the word back |
| `PageLock.AttemptsUnlock` | tskv/src/direct_io/cache/page/lock.rs:44-56 | so failed attempts, each over before the next, wrap the word of an owned page, and the next call is given a reference |
| `PageLock.StaleReset` | tskv/src/direct_io/cache/page/lock.rs:44-56 | an interleaving in which an attempt from an earlier exclusive time sets the word back |
| `PageLock.AttemptExactlyWhen` | tskv/src/direct_io/cache/page/lock.rs:43-56 | an attempt on an exclusive page adds one to the word, and compares and sets it back exactly from three quarters of the range on |
| `PagedFile.File.ReadAt` | tskv/src/direct_io/file.rs:90-108 | of a file whose pages are all there: the page-by-page read gives the matching slice, short only at the end of the file, and touches no more of the buffer |
| `PagedFile.File.WriteInPage` | tskv/src/direct_io/file.rs:214-229 | one write guard changes its bytes only, and the length as its drop does |
| `PagedFile.File.WriteAt` | tskv/src/direct_io/file.rs:110-125 | to a file whose pages are all there: the page-by-page write changes exactly its bytes, and the file becomes the old prefix, the new bytes, and the old tail only where the write ends with a page |
| `PagedFile.LenOnDropIs` | tskv/src/direct_io/file.rs:214-229 | the length after a guard is dropped, in terms of where the write ends |
| `PagedFile.PlainExactlyWhen` | tskv/src/direct_io/file.rs:110-125 | a write is a plain overwrite if and only if it is empty, reaches the end of the file, or ends with a page |
| `PagedFile.ShortWriteTruncates` | tskv/src/direct_io/file.rs:117-119 | one byte written over the first of three truncates the file to it |
| `OsFile.OsSpanIs` | tskv/src/direct_io/file/scope.rs:98-117 | how much of a page the OS file has, in terms of its length |
| `OsFile.LoadedExactlyWhen` | tskv/src/direct_io/file/scope.rs:98-109 | a miss leaves the length of the file alone if and only if the page is after the end, or the OS file reaches the end of the page, or ends where the file does; it never raises it |
| `OsFile.DroppedKeeps` | tskv/src/direct_io/file.rs:214-229 | a write that does not begin in a page after the end leaves every page of the file dirty in the cache or whole in the OS file |
| `CachedFile.CachedFile.constructor` | tskv/src/direct_io/file/scope.rs:20-35 | a file just opened is as long as its OS file |
| `CachedFile.CachedFile.Load` | tskv/src/direct_io/file/scope.rs:98-109 | getting a page leaves the length alone if and only if it was resident, or is after the end, or the OS file has all of it; else the file is cut off where the OS file ends, or where the page begins |
| `CachedFile.CachedFile.ReadAt` | tskv/src/direct_io/file.rs:90-108 | over the page cache and the OS file: never a longer file; the matching slice and the same file if no write began in a page after the end; and a page that neither has cuts the file off |
| `CachedFile.CachedFile.WriteAt` | tskv/src/direct_io/file.rs:110-125 | over the page cache and the OS file: if no write began in a page after the end, the file becomes what the write to the paged file makes of it; a write that begins in one makes the file as long as it ends |
| `CachedFile.CachedFile.SyncAll` | tskv/src/direct_io/file/scope.rs:118-125 | the file is what it was, the store has every page of it, and the OS file is as long as it |
| `CachedFile.CachedFile.Run` | tskv/src/direct_io/file.rs:82-125 | over every run of reads, writes and syncs in which no write begins in a page after the end the file is what a plain file would be |
| `CachedFile.FarWriteIsLost` | tskv/src/direct_io/file/scope.rs:98-109 | a byte written one page after the end of a new file is gone when the first page is read |
| `RecordLog.ScanFrom` | tskv/src/record_file/reader.rs:88-134 | a record that is found validates, from the start position on (which bytes validate: `RecordLaws.ValidExactlyWhen`) |
| `RecordLog.ScanIsLeast` | tskv/src/record_file/reader.rs:88-134 | no earlier position validates |
| `RecordLog.FoundExactlyWhen` | tskv/src/record_file/reader.rs:88-134 | a record is found if and only if one validates and none before it is cut off between its data and its checksum |
| `RecordLog.FrameAt` | tskv/src/record_file/writer.rs:33-47 | a frame anywhere in a file validates, and is the record it was made of |
| `RecordLog.LogRoundTrip` | tskv/src/record_file/writer.rs:28-75 | reading a whole log gives every record at the position returned for it, and then the end |
| `RecordLog.RoundTripExactlyWhen` | tskv/src/record_file/reader.rs:88-134 | a log is read back if and only if a reader's buffer can hold every record |
| `RecordLog.CutLogRoundTrip` | tskv/src/record_file/reader.rs:88-134 | of a log cut at any byte, the first records read are exactly the complete ones, in order |
| `RecordLog.CutLogExactlyWhen` | tskv/src/record_file/reader.rs:88-134 | and nothing more is read if and only if, from the cut record on, no record validates before a place where the file ends just after the data |
| `RecordLog.CutHidesRecord` | tskv/src/record_file/reader.rs:120-121 | whatever the checksum function, a log cut just before a checksum ends the reading although a valid record is inside |
| `RecordLog.CutBringsUpData` | tskv/src/record_file/reader.rs:112-119 | whatever the checksum function, a log cut inside the data can bring up a record that was only data |
| `RecordLog.OneAtFrame` | tskv/src/record_file/reader.rs:164-207 | reading at the position of a frame gives its record, however the file has grown |
| `RecordLaws.FrameIsWritten` | tskv/src/record_file/writer.rs:33-47 | magic number, size, version, type, data and checksum, byte by byte |
| `RecordLaws.ValidExactlyWhen` | tskv/src/record_file/reader.rs:88-134 | a place validates if and only if it has exactly the bytes some entry is written as |
| `RecordLaws.FoundIsWritten` | tskv/src/record_file/reader.rs:123-133 | a record returned is in the file byte by byte, and the four bytes after its data are the checksum of what is between the magic number and them |
| `RecordLaws.DamageIsFound` | tskv/src/record_file/reader.rs:123-131 | a record whose bytes were changed so that their checksum differs is never returned at its position |
| `RecordLaws.CutExactlyWhen` | tskv/src/record_file/reader.rs:110-121 | the reading ends at a place if and only if it has all of a record but some of its checksum |
| `RecordLaws.OneExactlyWhen` | tskv/src/record_file/reader.rs:164-207 | reading at a position gives a record if and only if its bytes up to the checksum are there |
| `RecordFile.Writer.WriteRecord` | tskv/src/record_file/writer.rs:28-75 | the frame is appended to the file, and its position returned |
| `RecordFile.Reader.SetPos` | tskv/src/record_file/reader.rs:42-71 | the position moves and the buffer stays in step with the file; an error exactly beyond its end |
| `RecordFile.Reader.LoadBuf` | tskv/src/record_file/reader.rs:136-143 | the buffer holds the file from the position on |
| `RecordFile.Reader.ReadBuf` | tskv/src/record_file/reader.rs:146-162 | the next bytes of the file, or the end of it where there are fewer or the buffer cannot hold them |
| `RecordFile.Reader.FindMagic` | tskv/src/record_file/reader.rs:73-84 | the first magic number at or after the position, or the end |
| `RecordFile.Reader.ReadRecord` | tskv/src/record_file/reader.rs:88-134 | the buffered, resynchronising reader ends, and finds what the plain parser finds in the bytes of the file: nothing but bytes that some entry is written as, checksum included |
| `RecordFile.Reader.ReadOne` | tskv/src/record_file/reader.rs:164-207 | the record at a position, its checksum not looked at |
| `ForwardIndex.Find` | tskv/src/forward_index/forward_index.rs:91-103 | a field is known, clashes in type, or is new, by the first entry with its id |
| `ForwardIndex.ForwardIndex.Append` | tskv/src/forward_index/forward_index.rs:124-129 | a record appended extends the replay by one step and leaves every series' position good |
| `ForwardIndex.ForwardIndex.AddField` | tskv/src/forward_index/forward_index.rs:107-135 | the record at the series' position is read and written again with the field, whatever series it is of; exactly when it is there, of the right kind and version; in a session positions are always right |
| `ForwardIndex.ForwardIndex.AddSeriesInfoIfNotExists` | tskv/src/forward_index/forward_index.rs:80-152 | new series are added, known ones get their new fields up to the first type clash (`IndexLaws.RefusedExactlyWhen`, `IndexLaws.AddedFields`), or up to the first record that is too long; positions and log stay in step |
| `ForwardIndex.ForwardIndex.DelSeriesInfo` | tskv/src/forward_index/forward_index.rs:165-182 | exactly the series goes, from memory and from what a replay will build |
| `ForwardIndex.ForwardIndex.HandleRecord` | tskv/src/forward_index/forward_index.rs:192-217 | one record replayed onto the map |
| `ForwardIndex.ForwardIndex.LoadCacheFile` | tskv/src/forward_index/forward_index.rs:184-190 | every record the reader finds is replayed, in order; positions become 0 |
| `ForwardIndex.ForwardIndex.ReplayRebuilds` | tskv/src/forward_index/forward_index.rs:184-217 | replaying the log of any session rebuilds the map from series to fields, if every record fits the reader's buffer |
| `ForwardIndex.ForwardIndex.ReplayedPosition` | tskv/src/forward_index/forward_index.rs:199-203 | after a replay the position is good only for the series that the first record adds |
| `ForwardIndex.ForwardIndex.AddFieldAfterReplay` | tskv/src/forward_index/forward_index.rs:107-135 | so a field added then to another series is written under the first one, and the next replay differs from the index in memory |
| `IndexLaws.RefusedExactlyWhen` | tskv/src/forward_index/forward_index.rs:88-103 | a type error if and only if the series is known and some new field has an id whose first field, of the index or an earlier new one, is of another type |
| `IndexLaws.RefusedForAnyDifference` | tskv/src/forward_index/forward_index.rs:88-103 | for a series with no id twice: if and only if any field before it has its id and another type |
| `IndexLaws.AddedFields` | tskv/src/forward_index/forward_index.rs:88-135 | the old fields are followed by exactly those new ones, before the first clash, whose id none has before them; no other series changes |
| `IndexLaws.LastWordCounts` | tskv/src/forward_index/forward_index.rs:192-217 | a replayed log has a series if and only if the last record of version 1 that names it adds it, with that record's fields |
| `BlockMerge.MergedIs` | tskv/src/tsm/block.rs:194-221 | in the merge of sorted blocks a time occurs more than j times if and only if it does in some block, and its j-th cell is the j-th of the last such block |
| `BlockMerge.MergedSorted` | tskv/src/tsm/block.rs:194-221 | the merge of sorted blocks is sorted |
| `BlockMerge.AscendingUnion` | tskv/src/tsm/block.rs:194-221 | without repeated times the merge is the union, each time once, the last block winning |
| `BlockMerge.MergedOfKind` | tskv/src/tsm/block.rs:44-77 | nothing is dropped from blocks of one type |
| `BlockMerge.Next` | tskv/src/tsm/block.rs:162-193 | the next cell of a block, none exactly at its end |
| `BlockMerge.RebuildVec` | tskv/src/tsm/block.rs:222-241 | every block shows its first cell, nothing is lost, and the least time is found |
| `BlockMerge.TakeMin` | tskv/src/tsm/block.rs:206-213 | all cells of the least time are taken and the last of them kept |
| `BlockMerge.MergeBlocks` | tskv/src/tsm/block.rs:195-221 | the loop ends and gives the merge; one block is given back as it is |
| `BlockMerge.MergeSorted` | tskv/src/tsm/block.rs:162-241 | end to end, for sorted blocks of one type: the result is sorted, and its j-th cell of a time is that of the last block with so many |
| `Packing.FieldOr` | tskv/src/tsm/coders/simple8b.rs:55-66 | or-ing a shifted field into free bits is adding it |
| `Packing.UnpackPacked` | tskv/src/tsm/coders/simple8b.rs:93-206 | the fields shifted out of a word are those packed into it, whatever is above them |
| `Simple8b.FirstRow` | tskv/src/tsm/coders/simple8b.rs:49-70 | the first row of the table that the coming values fit |
| `Simple8b.RowRoundTrip` | tskv/src/tsm/coders/simple8b.rs:109-203 | a word of a row decodes to its values |
| `Simple8b.ChunkRoundTrip` | tskv/src/tsm/coders/simple8b.rs:30-70 | a word, of a run of ones or of a row, decodes to the values it took up |
| `Simple8b.RoundTrip` | tskv/src/tsm/coders/simple8b.rs:78-91 | decoding the words gives the values back |
| `Simple8b.EncodesExactlyWhen` | tskv/src/tsm/coders/simple8b.rs:28-74 | there are words for the values if and only if each is at most MAX_VALUE |
| `Simple8b.TryRow` | tskv/src/tsm/coders/simple8b.rs:50-66 | a row is used exactly if it fits, with the values in their places |
| `Simple8b.PackNext` | tskv/src/tsm/coders/simple8b.rs:30-70 | 240 or 120 ones, else the first row that fits |
| `Simple8b.Encode` | tskv/src/tsm/coders/simple8b.rs:28-74 | success if and only if every value is at most MAX_VALUE, and then the bytes of the words |
| `Simple8b.DecodeValue` | tskv/src/tsm/coders/simple8b.rs:93-206 | the values of one word |
| `Simple8b.Decode` | tskv/src/tsm/coders/simple8b.rs:78-91 | the values of all words, for whole words (else the source panics) |
| `Simple8b.EncodeThenDecode` | tskv/src/tsm/coders/simple8b.rs:28-91 | what is encoded is decoded |
| `Layouts.Table` | tskv/src/tsm/coders/simple8b.rs:11-24 | the rows are all ways to fill 60 bits with as many values as fit, as wide as fits, the most values first |
| `Layouts.OnesFirst` | tskv/src/tsm/coders/simple8b.rs:33-46 | 240 ones are the word 0, 120 ones the word 2^60, before any row |
| `Layouts.DensestRow` | tskv/src/tsm/coders/simple8b.rs:49-68 | else a word holds as many values as any row can; its top four bits are the row's number and two, and value k is in the k-th field from the lowest |
| `Deltas.ZigZagBijection` | tskv/src/tsm/coders/integer.rs:85-93 | zig-zag is one to one onto the unsigned words, by its bit formulas |
| `Deltas.SumsOfDiffs` | tskv/src/tsm/coders/integer.rs:32-37 | running sums undo wrapped differences; with overflow checks, if and only if the true differences fit 64 bits |
| `Deltas.SumUp` | tskv/src/tsm/coders/integer.rs:150-158 | the decoders' loop computes the running sums, or stops at the first overflow |
| `Deltas.VarRoundTrip` | tskv/src/tsm/coders/integer.rs:107-123 | reading a varint back gives the number and its length |
| `Layouts.VarBytes` | tskv/src/tsm/coders/integer.rs:107-123 | seven bits a byte, the lowest first, the top bit on all but the last |
| `Layouts.BigEndian` | tskv/src/tsm/coders/integer.rs:68-77 | byte i of n is that of 256^(n-1-i) |
| `IntegerCoder.DeltaPass` | tskv/src/tsm/coders/integer.rs:30-40 | the pass from the back in place gives the zig-zagged differences, and whether they can be packed |
| `IntegerCoder.Encode` | tskv/src/tsm/coders/integer.rs:24-79 | the run-length, raw or packed layout, whichever applies |
| `IntegerCoder.Decode` | tskv/src/tsm/coders/integer.rs:126-215 | the values a block stands for, an error, the stop at an overflow, or the stop at a packed word that is cut |
| `IntegerCoder.IntegerRoundTrip` | tskv/src/tsm/coders/integer.rs:24-215 | decoding undoes encoding on every path; with overflow checks, unless the block is packed and a true difference does not fit |
| `IntegerCoder.PackedOverflow` | tskv/src/tsm/coders/integer.rs:209-213 | the least value followed by the greatest overflows the packed decoder |
| `IntegerCoder.EncodeThenDecode` | tskv/src/tsm/coders/integer.rs:24-215 | the values come back if and only if that case is excluded |
| `Layouts.IntegerTag` | tskv/src/tsm/coders/integer.rs:43-76 | the first byte is 0x20 exactly for three or more values in equal wrapped steps, else 0x10 exactly if every step is from -2^59 to 2^59-1, else 0x00 |
| `Layouts.IntegerRun` | tskv/src/tsm/coders/integer.rs:53-57 | then the zig-zagged first value, the zig-zagged step and the number of steps |
| `Layouts.IntegerRaw` | tskv/src/tsm/coders/integer.rs:62-71 | or every zig-zagged step in eight bytes |
| `Layouts.IntegerPacked` | tskv/src/tsm/coders/integer.rs:76-78 | or the first value, and the zig-zagged steps as simple8b packs them |
| `TimestampCoder.ExponentIsLargest` | tskv/src/tsm/coders/timestamp.rs:70-80 | the divisor is the largest power of ten, up to the twelfth, that divides every difference |
| `TimestampCoder.FindDivisor` | tskv/src/tsm/coders/timestamp.rs:70-80 | the nested loops find that divisor |
| `TimestampCoder.DeltaPass` | tskv/src/tsm/coders/timestamp.rs:30-38 | the pass from the back in place gives the wrapped differences, and whether they can be packed |
| `TimestampCoder.Encode` | tskv/src/tsm/coders/timestamp.rs:24-94 | the run-length, raw or scaled and packed layout, whichever applies |
| `TimestampCoder.Decode` | tskv/src/tsm/coders/timestamp.rs:151-251 | the values a block stands for, an error, the stop at an overflow of a product or a sum (which wrap without overflow checks), or the stop at a packed word that is cut |
| `TimestampCoder.HeaderHoldsExponent` | tskv/src/tsm/coders/timestamp.rs:89-92 | the exponent fits the low four bits of the header, beside the layout in the high four |
| `TimestampCoder.TimestampRoundTrip` | tskv/src/tsm/coders/timestamp.rs:24-251 | decoding undoes encoding, always for steady steps; with overflow checks, if and only if the true differences fit otherwise |
| `TimestampCoder.TimesOverflow` | tskv/src/tsm/coders/timestamp.rs:167-186 | the least time followed by the greatest twice overflows the decoder |
| `TimestampCoder.EncodeThenDecode` | tskv/src/tsm/coders/timestamp.rs:24-251 | the values come back if and only if that case is excluded |
| `Layouts.TimestampRun` | tskv/src/tsm/coders/timestamp.rs:39-53 | equal gaps: 0x20 and the largest scale in one byte, the first time, the scaled gap, the number of times |
| `Layouts.TimestampRaw` | tskv/src/tsm/coders/timestamp.rs:57-67 | gaps of more than 60 bits: 0x00, and every gap in eight bytes |
| `Layouts.TimestampPacked` | tskv/src/tsm/coders/timestamp.rs:69-93 | else 0x10 and the largest scale of all gaps in one byte, the first time, and the scaled gaps as simple8b packs them |
| `UnsignedCoder.EncodeThenDecode` | tskv/src/tsm/coders/unsigned.rs:11-29 | unsigned values come back if and only if the signed ones do and the destination has no capacity to spare |
| `BooleanCoder.Encode` | tskv/src/tsm/coders/boolean.rs:19-59 | header, number (at most eight bytes, else the source panics), one bit a value, zero bits to the end of the last byte |
| `BooleanCoder.Decode` | tskv/src/tsm/coders/boolean.rs:62-97 | the booleans of any such block |
| `BooleanCoder.EncodeThenDecode` | tskv/src/tsm/coders/boolean.rs:19-97 | what is encoded is decoded |
| `Layouts.BooleanLayout` | tskv/src/tsm/coders/boolean.rs:19-59 | 0x10, the number, and value k at the k-th bit from the highest |
| `TsmBlocks.ChunksTile` | tskv/src/tsm/writer.rs:159-170 | a length that is no multiple of 1000 is tiled by chunks: the first of what is over, all others of exactly 1000 |
| `TsmBlocks.EncodeVals` | tskv/src/tsm/block.rs:243-280 | the values of a chunk in the coder of their type; an error exactly for floats it does not take |
| `TsmBlocks.WriteChunk` | tskv/src/tsm/writer.rs:166-189 | two runs of bytes with their checksums, and the entry that says where they are and from when to when |
| `TsmBlocks.WriteOneTo` | tskv/src/tsm/writer.rs:159-193 | the writer stops if and only if the number of values is a multiple of 1000, none included; it fails exactly on values no coder takes; else every chunk of the field is in the file where its entry says |
| `TsmBlocks.ReadBlock` | tskv/src/tsm/reader.rs:76-141 | decoding an entry gives the chunk that is there |
| `TsmIndex.WriteIndex` | tskv/src/tsm/writer.rs:116-143 | the bytes of the index, field by field and block by block |
| `TsmIndex.IndexReader.constructor` | tskv/src/tsm/reader.rs:156-170 | the footer leads to the index |
| `TsmIndex.IndexReader.Next` | tskv/src/tsm/reader.rs:229-265 | the next entry that was written, and none exactly at the footer |
| `TsmIndex.ReadIndex` | tskv/src/tsm/reader.rs:229-265 | iterating gives exactly the entries that were written, in order |
| `Layouts.TypeCodes` | models/src/field_info.rs:35-46 | the code of each type |
| `Layouts.BlockLayout` | tskv/src/tsm/writer.rs:133-137 | first and last time, offset, size and value offset, eight bytes each, highest first |
| `Layouts.FieldLayout` | tskv/src/tsm/writer.rs:120-139 | id, type and number of blocks of a field, and its blocks, 11 bytes and 40 a block |
| `Layouts.FileHead` | tskv/src/tsm/writer.rs:91-97 | magic number and version |
| `TsmFile.WriteTsm` | tskv/src/tsm/writer.rs:90-157 | header, blocks, index in any order, and footer, with every series where its entries say; or the first series that cannot be written decides between a stop and an error |
| `TsmFile.ReadTsm` | tskv/src/tsm/reader.rs:75-265 | of series whose values their coders give back and whose chunk count fits 16 bits, every chunk written is read back, under its field and in the order of the index, and nothing else |
| `TsmFile.AllGather` | tskv/src/tsm/reader.rs:75-265 | the chunks under the key of a series, put together, are the series |
| `TsmFile.WriteThenRead` | tskv/src/tsm/writer.rs:90-157 | writing and reading back gives every series whole, whatever the order of the index |
| `Memcache.SortIsStable` | tskv/src/memcache.rs:170-175 | sorting orders by time and keeps the order of cells of one time |
| `Memcache.PrunedCounts` | tskv/src/memcache.rs:71-78 | a deletion takes exactly the cells in the range, although the overlap test asks for both ends at once |
| `Memcache.RetainOfTime` | tskv/src/memcache.rs:75-78 | what a deletion leaves of a time is all or nothing, in its order |
| `Memcache.MemCache.Insert` | tskv/src/memcache.rs:152-164 | the cell goes to the end of the field's cells, no other field changes, and the entry's times are widened just to enclose it |
| `Memcache.MemCache.SwitchToImmutable` | tskv/src/memcache.rs:170-175 | the cells stay and are sorted, field by field |
| `Memcache.MemCache.Delete` | tskv/src/tseries_family.rs:412-417 | exactly the cells in the range go, and the others keep their order |
| `TseriesFamily.TseriesFamily.constructor` | tskv/src/tseries_family.rs:263-292 | empty caches, which the super-version names |
| `TseriesFamily.TseriesFamily.SwitchToImmutable` | tskv/src/tseries_family.rs:309-326 | the mutable cache, sorted, joins the immutable ones; no cell is lost or changes places with one of its time |
| `TseriesFamily.TseriesFamily.WrapDeltaFlushReq` | tskv/src/tseries_family.rs:328-348 | the delta cache goes into a request of its own; no cell is lost or changes places with one of its time |
| `TseriesFamily.TseriesFamily.WrapFlushReq` | tskv/src/tseries_family.rs:350-368 | the immutable caches go into one request; no cell is lost or changes places with one of its time |
| `TseriesFamily.TseriesFamily.SwitchIfFull` | tskv/src/tseries_family.rs:397-405 | only a full mutable cache becomes immutable, and then exactly if there are enough of them all are sent in one request and the watermark moves up |
| `TseriesFamily.TseriesFamily.PutMutcache` | tskv/src/tseries_family.rs:372-410 | the cell is the last of its time, among the delta cells exactly if it is before the watermark; which caches become immutable or are sent, in order, by what is full and what is delta; the super-version stays the current caches, no cache stays full, and the watermark does not fall if caches have room for a cell |
| `TseriesFamily.TseriesFamily.DeleteCache` | tskv/src/tseries_family.rs:412-430 | exactly the cells in the range go from all caches, are counted as deleted, and none goes from a request; the others keep their order |
| `TseriesFamily.TseriesFamily.Run` | tskv/src/tseries_family.rs:372-430 | over every run of puts and deletions: how often a cell is in a cache or a request, and was deleted from a cache, is how often it was there and was put; if caches have room for a cell the watermark never falls, and the cells of a time that no deletion is of are, from the first request to the caches and deltas last, those that were there and those put since, in the order they were put |
| `TseriesFamily.TseriesFamily.FlushesInOrder` | tskv/src/tseries_family.rs:397-405 | a non-delta cell of a later flush request is no earlier than one of an earlier request |

## Left out

- ClockHands.RunHandCold: says nothing of a search among two or more locked cold pages, which need not end.
- LockedSearch.SearchEndsExactlyWhen: is for rings where no resident page in its test period is locked or referenced, since
  such a page sends HAND_hot round, which changes what is cold; with two or more locked cold pages and such a page only
  what a search has done when it ends (`Rounds`) is proved, not when it ends.
- GorillaDecoder.Decode: does not say which values are made up after the end of a stream that ends too early.
- ForwardIndex.ForwardIndex.ReplayRebuilds: is one way; a record too long for the reader may be one that was replaced later.
- CacheModel.Transparent: is for operations one after the other, with every guard dropped and every I/O successful;
  overlapping misses of several threads, the error path and `discard` are not modelled.
- PageCache.PageCache.GetPage: does not model evmap's delayed reads, raw allocation, or the hit, miss and I/O counters.
- PageLock.InvNext: the I/O of the page succeeds; a failed I/O, which leaves the page locked, is not modelled.
- Waker.InvNext: reference counting of tasks and memory orderings weaker than sequential consistency are not modelled.
- CachedFile.CachedFile.ReadAt: after a write that began in a page after the end, only the length is described, not the bytes
  of pages that nobody wrote (zeros or an old buffer in the source), nor bytes after the end; one call of the OS is taken to
  read all that is there.
- PagedFile.File.WriteAt: a far write leaves no page that a later miss reads short; `CachedFile` says what it does there.
- PagedFile.File.ReadAt: no miss reads a page short, as in `CachedFile.Run`; positions are unbounded; page ids beyond 32 bits, which panic, are not modelled, nor is the OS file below.
- ForwardIndex.ForwardIndex.AddSeriesInfoIfNotExists: ids are given with the series (the BKDR hash and the sorting of tags
  are not modelled), and a record of 4 GB or more is an error here and a panic in the source.
- BlockMerge.MergeBlocks: the read index is unbounded, 32 bits in the source.
- IntegerCoder.Decode: a varint of more than 64 bits is an error; the library that reads it is not modelled further.
- UnsignedCoder.EncodeThenDecode: the capacity is given; how a vector rounds it up is not modelled.
- TsmFile.WriteTsm: string blocks, which rest on the Snappy library, and the contents of the Bloom filter are not modelled;
  a hash map is a sequence in any order.
- TseriesFamily.TseriesFamily.PutMutcache: values are bytes, not decoded by type; the flush queue is this family's only.
- `switch_memcache`, which swaps the two caches, and reading from the family's caches.
- WAL, summary, flush job, level info, compaction, tombstones, the LRU cache, queries, RPC, configuration: file plumbing,
  wrappers or unfinished code, with easy members only.
