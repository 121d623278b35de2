# Buffer pool of reina, in Dafny

This project models the page cache of the reina storage engine (`src/buffer.rs`),
which has three parts:

- **Buffer frames.** A frame is a page held in memory, shared by reference
  counting between the pool and the callers that fetched it. It has a fixed
  page id, the page bytes and a dirty flag. Every mutable borrow sets the flag,
  and nothing clears it.
- **The `ClockSweep` replacement policy.** This is a second-chance (CLOCK)
  pool. It has a fixed number of slots, each holding a use counter and a frame
  handle. An index maps page ids to slots, and a clock hand marks where the
  next victim search starts.
- **`BufferPoolManager::fetch_page`.** It serves a resident page from the pool.
  Otherwise it reads the page from the heap file into a zero-filled buffer,
  pushes a new frame into the pool, and writes back the evicted frame if it
  was dirty.

The Dafny modules follow that structure:

- `Wrappers`: `Option`.
- `Disk`: page ids as unsigned 64-bit values, and the heap file as a map from
  page id to bytes. A page that was never written reads as zeros of the page
  size.
- `Frames`: class `Frame`. One `Frame` object is the shared record, and each
  handle is a reference to it. `extHolds` counts the handles beyond the first,
  so while a frame is resident, `extHolds == 0` is the source's `is_unique`.
  The source's accessors `page_id`, `get_page_ref` and `is_dirty` are the
  fields `pageId`, `page` and `dirty`, and `is_unique` is the predicate
  `IsUnique`.
- `SweepSpec`: the victim search as a pure function, `Sweep`, on the counters,
  the uniqueness flags, the hand and the failure count. It comes with lemmas
  about which slot becomes the victim, which counters drop, and when the
  search gives up.
- `Clock`: class `ClockSweep`, with its invariant `Valid()`: the index and the
  slots agree, and at most `capacity` slots are used. Its methods are proved
  against `Sweep` and the invariant.
- `Pool`: class `BufferPoolManager` over the disk map. Its page fetch is split
  into a hit path (`FetchPage`), a miss path (`FetchMiss`), and the
  post-eviction write-back (`Settle`).
- `Scenarios`: concrete runs whose outcomes the model must produce:
  - the repository's CLOCK unit test, step by step;
  - a dirty page written back on eviction and read back;
  - a fetch into a pool whose only frame is pinned.

In these particulars the model follows `src/buffer.rs`, which a reader might
not expect of a CLOCK pool:

- A slot with counter 0 becomes the victim even while a caller still holds
  its frame.
- `fetch_page` ignores `PoolIsFull` and returns a frame the pool does not
  cache.
- "Inserted, nothing evicted" is reported as the error value `Success`.
- The clock hand stays on the replaced slot.
- A search that gives up leaves the hand on the last slot it inspected.
- A failed write-back of a dirty victim still leaves the pool changed. The
  new frame is cached with no caller handle and the victim is out of the
  pool, so the victim's unsaved bytes survive only in the hands of a caller
  that still holds its frame.

## Model

| member | source | states |
|---|---|---|
| Frames.Frame.constructor | src/buffer.rs:38-46 | a new frame has the given page id and bytes, is clean, and has a single handle |
| Frames.Frame.Clone | src/buffer.rs:60-71 | the clone is the same shared frame with one more handle, so `is_unique` no longer holds for it; bytes and dirty flag unchanged |
| Frames.Frame.Drop | src/buffer.rs:32-35 | dropping a handle removes one handle (and never goes below the last one), so dropping the only extra handle makes the frame unique again; bytes and dirty flag unchanged |
| Frames.Frame.GetPageMut | src/buffer.rs:53-56 | a mutable borrow sets the dirty flag whether or not the bytes change; the bytes become the caller's edit of the old bytes; the handle count is unchanged |
| Disk.Zeros | src/buffer.rs:195 | the read buffer has exactly page-size bytes, all zero |
| Disk.WritePage | src/buffer.rs:203-204 | a write stores the given bytes at the page, adds that page to the written ones, and leaves every other written page as it was |
| Disk.ReadUnwritten | src/buffer.rs:195-196 | a page never written reads as page-size zero bytes |
| Disk.ReadAfterWrite | src/disk.rs:35-42 | reading a page just written gives exactly the written bytes, with no padding or cutting to the page size; every other page reads as before |
| SweepSpec.NextHand | src/buffer.rs:104-106 | the next hand position stays on the clock and wraps from the last slot to 0 |
| SweepSpec.Sweep | src/buffer.rs:148-167 | the search ends on a slot of the clock, keeps one counter per slot, and a victim slot has counter 0; it terminates by the sum of the counters, then by the failures left |
| SweepSpec.SweepOnlyLowersUnpinned | src/buffer.rs:151-164 | the search never raises a counter, and never changes the counter of a slot whose frame a caller holds |
| SweepSpec.PinnedSweepExhausts | src/buffer.rs:156-163 | on a clock whose every slot has a positive counter and a pinned frame, the search gives up with the counters untouched, after the remaining failure budget |
| SweepSpec.UnpinnedSlotPreventsExhaustion | src/buffer.rs:152-163 | an unpinned slot (counter 0 or held only by the pool) within the failure budget means the search finds a victim |
| SweepSpec.SweepExhaustedIff | src/buffer.rs:148-167 | a fresh search gives up if and only if every slot has a positive counter and a pinned frame; it then leaves the counters unchanged and the hand moved by n-1 slots modulo n |
| SweepSpec.FirstZeroIsVictim | src/buffer.rs:150-166 | the victim is the first slot with counter 0 reached from the hand, pinned or not; each slot passed on the way loses one from its counter exactly when the pool alone holds its frame |
| Clock.IndexedAppend | src/buffer.rs:141-145 | appending a frame for an unindexed page at the next slot keeps index and slots in agreement |
| Clock.IndexedReplace | src/buffer.rs:169-171 | removing the victim's page from the index and mapping the new page to the victim slot, while the slot takes the new frame, keeps index and slots in agreement |
| Clock.ClockSweep.constructor | src/buffer.rs:113-120 | an empty pool with the hand at 0, of the hinted capacity or 1024 without a hint, satisfying the invariant |
| Clock.ClockSweep.Request | src/buffer.rs:126-134 | on a hit: exactly that slot's counter goes up by one, the returned handle is that slot's frame, whose page id is the requested one and which gains one handle; index, hand and every other slot are unchanged. On a miss: `None`, nothing changes. The invariant is preserved |
| Clock.ClockSweep.RequestWithHint | src/buffer.rs:122-124 | the same as `Request`; the hint is ignored |
| Clock.Scan | src/buffer.rs:148-167 | the search loop over a working copy of the slots: it ends with the counters `Sweep` gives and every slot keeping its frame, on the hand `Sweep` gives, and reports giving up exactly when `Sweep` does, with the slots then untouched |
| Clock.ClockSweep.FindVictim | src/buffer.rs:148-167 | the search over the pool's own slots leaves the counters and the hand as `Sweep` gives them and every slot keeping its frame; it reports "full" exactly when `Sweep` gives up, in which case the slots are unchanged |
| Clock.ClockSweep.Push | src/buffer.rs:136-174 | with a free slot: appends the frame with counter 0, indexes it at that slot, and reports `Success`; the hand and the other slots are unchanged. When full: the hand goes where `Sweep` leaves it. Given a victim, it returns the victim's page id and frame, the victim slot takes the new frame with counter 0, the victim's page leaves the index and the new page maps to the victim slot; the slot count stays the same. Given `PoolIsFull`, the slots and index are unchanged and the given handle is dropped. The invariant is preserved throughout |
| Pool.BufferPoolManager.constructor | src/buffer.rs:183-188 | a manager over the given disk whose pool is empty, with the given capacity |
| Pool.BufferPoolManager.Settle | src/buffer.rs:199-208 | after a push, a dirty evicted frame is written back to its page and the pool's handle to it is dropped; the fetched frame is returned unless that write fails, in which case the caller's handle is dropped and the fetch reports an I/O error |
| Pool.BufferPoolManager.FetchMiss | src/buffer.rs:195-208 | for a page that is not resident: a failed read changes nothing. Otherwise it builds a fresh clean frame with the page's disk bytes (zeros if never written) and pushes it: into a free slot, returned with one caller handle; over the victim, written back first if dirty; when the pool is full of pinned frames, the frame is returned but not in the pool. Of the resident frames it may change only the victim, which keeps its bytes and dirty flag and loses the pool's handle |
| Pool.BufferPoolManager.FetchPage | src/buffer.rs:190-209 | a hit returns the resident frame with one more handle and a bumped counter, and does not touch the disk; a miss behaves as `FetchMiss`. The only resident frame it may change is the hit frame or the victim, whose bytes and dirty flag it keeps. The pool invariant is preserved |
| Pool.BufferPoolManager.FetchKeepsPages | src/buffer.rs:190-209 | a fetch leaves the bytes and the dirty flag of every frame the pool held as they were; nothing but a mutable borrow changes them |
| Scenarios.ClockSweepTrace | src/buffer.rs:220-277 | the unit test's trace: the first push reports `Success`, the pushes of pages 4 and 5 evict pages 1 and 4, and the final slots hold pages 5, 2, 3 with counters 0, 0, 0 |
| Scenarios.Fill | src/buffer.rs:228-241 | three pushes into a pool of three report `Success` and fill slots 0-2 with pages 1-3, counters 0 |
| Scenarios.PinTwo | src/buffer.rs:243-244 | requests for pages 2 and 3 return their frames and raise their counters to 1 |
| Scenarios.NewHeld | src/buffer.rs:222-225 | a mock frame and the clone the test passes to push: a fresh frame with one extra handle |
| Scenarios.EvictFirst | src/buffer.rs:246-258 | pushing page 4 evicts page 1 at once (counter 0); slots hold pages 4, 2, 3 with counters 0, 1, 1 |
| Scenarios.Unpin | src/buffer.rs:260-263 | dropping the test's handles unpins pages 2 and 3; the hand is set to 1 |
| Scenarios.EvictPinned | src/buffer.rs:264-276 | pushing page 5 clears the counters of pages 2 and 3 and evicts page 4 from slot 0, though the test holds page 4; the hand ends on slot 0 |
| Scenarios.WriteBackRoundTrip | src/buffer.rs:190-209 | a page fetched, overwritten, then evicted by another fetch reads back with the written bytes on its next fetch; its first fetch saw zeros |
| Scenarios.LoadEdited | src/buffer.rs:195-198 | a first fetch into an empty pool reads zeros and caches the page; editing makes the frame dirty |
| Scenarios.EvictDirty | src/buffer.rs:199-205 | fetching another page into the full one-slot pool writes the dirty victim back to the disk |
| Scenarios.Refetch | src/buffer.rs:195-198 | fetching the evicted page again reads the written-back bytes |
| Scenarios.PinnedPoolFetch | src/buffer.rs:199-208 | a fetch into a pool whose only frame is pinned returns the new page's bytes in a frame the pool does not cache and that holds no extra handle |

## Left out

- Counters are unbounded naturals: the 64-bit overflow of the counter
  increment in `request` is not modelled.
- Frames.Frame.Drop: reference counting is modelled by the explicit
  `extHolds` count. Freeing a frame when its last handle goes, weak counts,
  and the run-time borrow checks on the page bytes are memory machinery with
  no counterpart here.
- Clock.ClockSweep.Push: requires `pageId !in index`, `frame.pageId ==
  pageId` and `0 < capacity`. The source checks none of them. `fetch_page`
  only pushes after a miss, and with a duplicate id the index would keep an
  orphaned slot. Every caller pushes a frame built for the id it passes.
  With a capacity of 0 the "full" test always holds, so the source panics
  indexing the empty slot vector at the clock hand. `FetchPage` and
  `FetchMiss` also require a positive capacity, for that reason.
- Clock.ClockSweep.constructor: the "full" test compares against the vector's
  allocated capacity, which the model takes to be exactly the requested size.
- Clock.ClockSweep.FindVictim: the search runs on a working copy of the slots
  and hand (`Clock.Scan`), which is stored back when it ends. The source
  updates the slots in place; nothing can observe the difference, because no
  other code runs during the loop.
- The disk manager is an abstract page map. It keeps only the rule that a
  write replaces a page's bytes and a read returns the last bytes written.
  Byte offsets (`page_size * page_id`), offset overflow, short or partial
  reads and writes, pages shorter or longer than the page size, and `sync`
  are not modelled.
- The result of a disk read or write is a boolean parameter of the fetch
  (`readOk`, `writeOk`). I/O error kinds are not distinguished.
- Frame equality in the unit test compares page id and dirty flag. The
  scenarios compare frame identity instead, which is stronger. Formatting
  (`Debug`) and error messages are left out.
- The `PoolAlgorithm` trait and its generic parameters are left out. The
  manager is written for `ClockSweep` directly.
