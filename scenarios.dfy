/**
  Concrete runs of the pool, stated as methods whose contracts the model
  has to meet: the CLOCK trace of the repository's own unit test, a dirty
  page surviving eviction through the disk, and a fetch into a pool whose
  only frame is pinned.
 */
module Scenarios {

  import opened Wrappers
  import opened Disk
  import opened Frames
  import opened SweepSpec
  import opened Clock
  import opened Pool

  /**
    The unit test's trace: three pushes fill a pool of three; two requests
    pin pages 2 and 3; pushing page 4 evicts page 1 at once (counter 0).
    After the pins are dropped and the hand is set to 1, pushing page 5
    clears the counters of pages 2 and 3 and evicts page 4 from slot 0,
    although the test still holds page 4's frame. The returned evicted ids
    and the final counters and pages are those the test expects. Each step
    is a method of its own below, with its state stated outright.
   */
  method ClockSweepTrace() returns (first: PushResult, evicted1: PageId, evicted2: PageId, counters: seq<nat>, pages: seq<PageId>)
    ensures first == Err(Success)
    ensures evicted1 == 1 && evicted2 == 4
    ensures counters == [0, 0, 0] && pages == [5, 2, 3]
  {
    var pool, frame1, frame2, frame3;
    pool, frame1, frame2, frame3, first := Fill();
    var got2, got3 := PinTwo(pool, frame1, frame2, frame3);
    var frame4 := NewHeld(4);
    var r4 := EvictFirst(pool, frame1, frame2, frame3, frame4);
    Unpin(pool, frame2, frame3);
    var frame5 := NewHeld(5);
    var r5 := EvictPinned(pool, frame2, frame3, frame4, frame5);
    evicted1, evicted2 := r4.evictedId, r5.evictedId;
    counters := [pool.frames[0].counter, pool.frames[1].counter, pool.frames[2].counter];
    pages := [pool.frames[0].frame.pageId, pool.frames[1].frame.pageId, pool.frames[2].frame.pageId];
  }

  /** A pool of three holding pages 1, 2 and 3 with counter 0; the test keeps a handle to page 1. */
  method Fill() returns (pool: ClockSweep, frame1: Frame, frame2: Frame, frame3: Frame, first: PushResult)
    ensures fresh(pool) && fresh(frame1) && fresh(frame2) && fresh(frame3)
    ensures first == Err(Success)
    ensures pool.Valid() && pool.capacity == 3 && pool.clockHand == 0
    ensures pool.frames == [Slot(0, frame1), Slot(0, frame2), Slot(0, frame3)]
    ensures pool.index == map[1 := 0, 2 := 1, 3 := 2]
    ensures frame1.pageId == 1 && frame2.pageId == 2 && frame3.pageId == 3
    ensures frame1.extHolds == 1 && frame2.extHolds == 0 && frame3.extHolds == 0
  {
    pool := new ClockSweep(Some(3));
    frame1 := new Frame(1, Zeros(4096));
    frame2 := new Frame(2, Zeros(4096));
    frame3 := new Frame(3, Zeros(4096));
    var h1 := frame1.Clone();
    first := pool.Push(1, h1);
    assert pool.frames == [Slot(0, frame1)] && pool.index == map[1 := 0];
    var r2 := pool.Push(2, frame2);
    assert pool.frames == [Slot(0, frame1), Slot(0, frame2)] && pool.index == map[1 := 0, 2 := 1];
    var r3 := pool.Push(3, frame3);
    assert r2 == r3 == Err(Success);
  }

  /** Requests for pages 2 and 3 bump their counters and hand out handles. */
  method PinTwo(pool: ClockSweep, frame1: Frame, frame2: Frame, frame3: Frame) returns (got2: Option<Frame>, got3: Option<Frame>)
    requires pool.Valid() && pool.capacity == 3 && pool.clockHand == 0
    requires pool.frames == [Slot(0, frame1), Slot(0, frame2), Slot(0, frame3)]
    requires pool.index == map[1 := 0, 2 := 1, 3 := 2]
    requires frame2.extHolds == 0 && frame3.extHolds == 0
    modifies pool, frame2, frame3
    ensures got2 == Some(frame2) && got3 == Some(frame3)
    ensures pool.Valid() && pool.clockHand == 0
    ensures pool.frames == [Slot(0, frame1), Slot(1, frame2), Slot(1, frame3)]
    ensures pool.index == map[1 := 0, 2 := 1, 3 := 2]
    ensures frame2.extHolds == 1 && frame3.extHolds == 1
  {
    got2 := pool.Request(2);
    got3 := pool.Request(3);
  }

  /** A new frame of zeros for `pageId` with one handle beyond the first, as `frame.clone()` leaves it. */
  method NewHeld(pageId: PageId) returns (frame: Frame)
    ensures fresh(frame) && frame.pageId == pageId && frame.extHolds == 1
  {
    frame := new Frame(pageId, Zeros(4096));
    var h := frame.Clone();
  }

  /**
    Pushing page 4 evicts page 1 at once: its counter is 0. The handle to
    page 1 that push hands back is dropped.
   */
  method EvictFirst(pool: ClockSweep, frame1: Frame, frame2: Frame, frame3: Frame, frame4: Frame) returns (r4: PushResult)
    requires pool.Valid() && pool.capacity == 3 && pool.clockHand == 0
    requires pool.frames == [Slot(0, frame1), Slot(1, frame2), Slot(1, frame3)]
    requires pool.index == map[1 := 0, 2 := 1, 3 := 2]
    requires frame1.pageId == 1 && frame1.extHolds == 1 && frame4.pageId == 4
    modifies pool, frame1, frame4
    ensures r4 == Ok(1, frame1) && frame1.extHolds == 0
    ensures frame4.extHolds == old(frame4.extHolds)
    ensures pool.Valid() && pool.clockHand == 0
    ensures pool.frames == [Slot(0, frame4), Slot(1, frame2), Slot(1, frame3)]
    ensures pool.index == map[4 := 0, 2 := 1, 3 := 2]
  {
    assert Counters(pool.frames) == [0, 1, 1];
    r4 := pool.Push(4, frame4);
    assert pool.index == (map[1 := 0, 2 := 1, 3 := 2] - {1})[4 := 0];
    r4.evicted.Drop();
  }

  /** The test drops its handles to pages 2 and 3 and puts the hand on slot 1. */
  method Unpin(pool: ClockSweep, frame2: Frame, frame3: Frame)
    requires pool.Valid() && pool.capacity == 3
    requires frame2.extHolds == 1 && frame3.extHolds == 1
    modifies pool, frame2, frame3
    ensures pool.Valid() && pool.clockHand == 1
    ensures pool.frames == old(pool.frames) && pool.index == old(pool.index)
    ensures frame2.extHolds == 0 && frame3.extHolds == 0
  {
    frame2.Drop();
    frame3.Drop();
    pool.clockHand := 1;
  }

  /**
    With the hand on slot 1 and pages 2 and 3 held by the pool alone,
    pushing page 5 clears their counters and evicts page 4 from slot 0,
    although the test still holds page 4's frame.
   */
  method EvictPinned(pool: ClockSweep, frame2: Frame, frame3: Frame, frame4: Frame, frame5: Frame) returns (r5: PushResult)
    requires pool.Valid() && pool.capacity == 3 && pool.clockHand == 1
    requires pool.frames == [Slot(0, frame4), Slot(1, frame2), Slot(1, frame3)]
    requires pool.index == map[4 := 0, 2 := 1, 3 := 2]
    requires frame4.pageId == 4 && frame5.pageId == 5
    requires frame2.extHolds == 0 && frame3.extHolds == 0 && frame4.extHolds == 1
    modifies pool, frame5
    ensures r5 == Ok(4, frame4)
    ensures pool.clockHand == 0
    ensures pool.frames == [Slot(0, frame5), Slot(0, frame2), Slot(0, frame3)]
  {
    ghost var c := Counters(pool.frames);
    ghost var u := UniqueFlags(pool.frames);
    assert c == [0, 1, 1];
    assert u == [false, true, true];
    assert Dist(1, 1, 3) == 0 && Dist(1, 2, 3) == 1 && Dist(1, 0, 3) == 2;
    FirstZeroIsVictim(c, u, 1, 0, 0);
    assert Sweep(c, u, 1, 0).counters == [0, 0, 0];
    r5 := pool.Push(5, frame5);
  }

  /**
    A page is fetched into a one-slot pool, overwritten with a full page of
    new bytes and released; a fetch of another page evicts it, writing it
    back; fetching it again reads back what was written. `first` is what
    the first fetch saw.
   */
  method WriteBackRoundTrip(pageSize: nat, bytes: Page) returns (first: Page, got: Page)
    requires |bytes| == pageSize
    ensures first == Zeros(pageSize)
    ensures got == bytes
  {
    var bpm, f0;
    bpm, f0, first := LoadEdited(pageSize, bytes);
    var f1 := EvictDirty(bpm, f0, bytes);
    got := Refetch(bpm, f1, bytes);
  }

  /** Page 0 is fetched into an empty one-slot pool, overwritten and released. */
  method LoadEdited(pageSize: nat, bytes: Page) returns (bpm: BufferPoolManager, f0: Frame, first: Page)
    requires |bytes| == pageSize
    ensures fresh(bpm) && fresh(bpm.pool) && fresh(f0)
    ensures first == Zeros(pageSize)
    ensures bpm.disk == map[]
    ensures bpm.pool.Valid() && bpm.pool.capacity == 1
    ensures bpm.pool.frames == [Slot(0, f0)] && bpm.pool.index == map[0 := 0]
    ensures f0.pageId == 0 && f0.dirty && f0.page == bytes && f0.extHolds == 0
  {
    bpm := new BufferPoolManager(map[], pageSize, 1);
    var r0 := bpm.FetchPage(0, true, true);
    f0 := r0.frame;
    first := f0.page;
    f0.GetPageMut(_ => bytes);
    f0.Drop();
  }

  /** Fetching page 1 evicts the dirty page 0, which is written back first. */
  method EvictDirty(bpm: BufferPoolManager, f0: Frame, bytes: Page) returns (f1: Frame)
    requires bpm.disk == map[]
    requires bpm.pool.Valid() && bpm.pool.capacity == 1
    requires bpm.pool.frames == [Slot(0, f0)] && bpm.pool.index == map[0 := 0]
    requires f0.pageId == 0 && f0.dirty && f0.page == bytes && f0.extHolds == 0
    modifies bpm, bpm.pool, f0
    ensures bpm.disk == map[0 := bytes]
    ensures fresh(f1)
    ensures bpm.pool.Valid() && bpm.pool.frames == [Slot(0, f1)] && bpm.pool.index == map[1 := 0]
    ensures f1.extHolds == 0
  {
    assert Counters(bpm.pool.frames) == [0];
    var r1 := bpm.FetchPage(1, true, true);
    f1 := r1.frame;
    f1.Drop();
  }

  /** Fetching page 0 again reads back the bytes written to the disk. */
  method Refetch(bpm: BufferPoolManager, f1: Frame, bytes: Page) returns (got: Page)
    requires bpm.disk == map[0 := bytes]
    requires bpm.pool.Valid() && bpm.pool.capacity == 1
    requires bpm.pool.frames == [Slot(0, f1)] && bpm.pool.index == map[1 := 0]
    requires f1.extHolds == 0
    modifies bpm, bpm.pool, f1
    ensures got == bytes
  {
    assert Counters(bpm.pool.frames) == [0];
    var r2 := bpm.FetchPage(0, true, true);
    got := r2.frame.page;
  }

  /**
    A pool of one slot whose frame a caller still holds and has requested
    twice: fetching another page finds the pool full, and the fetch returns
    a frame of the page's bytes that the pool does not cache.
   */
  method PinnedPoolFetch(pageSize: nat) returns (cached: bool, bytes: Page, holds: nat)
    ensures !cached
    ensures bytes == Zeros(pageSize)
    ensures holds == 0
  {
    var bpm := new BufferPoolManager(map[], pageSize, 1);
    var r0 := bpm.FetchPage(0, true, true);
    var r0again := bpm.FetchPage(0, true, true);
    var f0 := r0.frame;
    assert bpm.pool.frames == [Slot(1, f0)] && f0.extHolds == 2;

    ghost var u := UniqueFlags(bpm.pool.frames);
    assert Counters(bpm.pool.frames) == [1] && u == [false];
    assert AllPinned([1], u);
    SweepExhaustedIff([1], u, 0);
    var r1 := bpm.FetchPage(1, true, true);
    cached := 1 in bpm.pool.index;
    bytes := r1.frame.page;
    holds := r1.frame.extHolds;
  }
}
