/**
  The buffer pool manager: a CLOCK pool in front of the heap file. A fetch
  serves a resident page from the pool; otherwise it reads the page into a
  zero-filled buffer, builds a frame for it, pushes the frame into the pool
  and writes back the frame that push evicted if it was dirty.
 */
module Pool {

  import opened Wrappers
  import opened Disk
  import opened Frames
  import opened SweepSpec
  import opened Clock

  /** What a fetch returns: a handle to the page's frame, or an I/O error. */
  datatype FetchResult = Fetched(frame: Frame) | IoError

  /** `f` is a clean frame for `pageId` holding `page`. */
  ghost predicate Loaded(f: Frame, pageId: PageId, page: Page)
    reads f
  {
    f.pageId == pageId && !f.dirty && f.page == page
  }

  class BufferPoolManager {
    /** Page size of the heap file, in bytes. */
    const pageSize: nat
    /** The heap file's contents, page by page. */
    var disk: DiskImage
    /** The replacement policy holding the resident frames. */
    const pool: ClockSweep

    /** A manager over `disk` whose pool has `poolSize` slots. */
    constructor (disk: DiskImage, pageSize: nat, poolSize: nat)
      ensures this.disk == disk && this.pageSize == pageSize
      ensures fresh(pool) && pool.Valid() && pool.capacity == poolSize
      ensures pool.frames == [] && pool.index == map[] && pool.clockHand == 0
    {
      this.disk := disk;
      this.pageSize := pageSize;
      pool := new ClockSweep(Some(poolSize));
    }

    /**
      What a fetch does after its push: a frame `push` evicted is written
      back if dirty and the pool's handle to it is dropped; the caller then
      gets `frame`, unless a needed write failed, in which case its handle
      to `frame` is dropped and the fetch reports an error.
     */
    method Settle(res: PushResult, frame: Frame, writeOk: bool) returns (r: FetchResult)
      requires res.Ok? ==> res.evicted != frame
      modifies this, frame, if res.Ok? then {res.evicted} else {}
      ensures frame.page == old(frame.page) && frame.dirty == old(frame.dirty)
      ensures res.Ok? ==>
                && res.evicted.page == old(res.evicted.page) && res.evicted.dirty == old(res.evicted.dirty)
                && res.evicted.extHolds == if old(res.evicted.extHolds) > 0 then old(res.evicted.extHolds) - 1 else 0
      ensures var failed := res.Ok? && old(res.evicted.dirty) && !writeOk;
              && r == (if failed then IoError else Fetched(frame))
              && frame.extHolds == (if !failed then old(frame.extHolds) else if old(frame.extHolds) > 0 then old(frame.extHolds) - 1 else 0)
              && disk == if res.Ok? && old(res.evicted.dirty) && writeOk then WritePage(old(disk), res.evictedId, old(res.evicted.page)) else old(disk)
    {
      if res.Ok? {
        var victim := res.evicted;
        if victim.dirty {
          if !writeOk {
            victim.Drop();
            frame.Drop();
            return IoError;
          }
          disk := WritePage(disk, res.evictedId, victim.page);
        }
        victim.Drop();
      }
      r := Fetched(frame);
    }

    /**
      The miss half of `FetchPage`, for a page that is not resident: read
      the page into a zero-filled buffer, build a clean frame of it, push a
      handle to it into the pool and settle the push's outcome. Its contract
      is `FetchPage`'s for that case. Of the resident frames it touches only
      the one the victim search picks, whose bytes and dirty flag it keeps.
     */
    method FetchMiss(pageId: PageId, readOk: bool, writeOk: bool) returns (r: FetchResult)
      requires pool.Valid() && 0 < pool.capacity
      requires pageId !in pool.index
      modifies this, pool, pool.VictimSet()
      ensures pool.Valid()
      ensures forall g :: g in old(pool.VictimSet()) ==> g.page == old(g.page) && g.dirty == old(g.dirty)
      ensures !readOk ==>
                && r == IoError
                && pool.frames == old(pool.frames)
                && pool.index == old(pool.index) && pool.clockHand == old(pool.clockHand)
                && disk == old(disk)
                && unchanged(old(pool.VictimSet()))
      ensures readOk && old(|pool.frames|) < pool.capacity ==>
                && r.Fetched? && fresh(r.frame)
                && Loaded(r.frame, pageId, ReadPage(old(disk), pageId, pageSize))
                && r.frame.extHolds == 1
                && pool.frames == old(pool.frames) + [Slot(0, r.frame)]
                && pool.index == old(pool.index)[pageId := old(|pool.frames|)]
                && pool.clockHand == old(pool.clockHand)
                && disk == old(disk)
      ensures readOk && old(|pool.frames|) == pool.capacity ==>
                var out := Sweep(Counters(old(pool.frames)), old(UniqueFlags(pool.frames)), old(pool.clockHand), 0);
                && pool.clockHand == out.hand
                && (out.Exhausted? ==>
                      && r.Fetched? && fresh(r.frame)
                      && Loaded(r.frame, pageId, ReadPage(old(disk), pageId, pageSize))
                      && r.frame.extHolds == 0
                      && r.frame !in pool.FrameSet()
                      && pool.frames == old(pool.frames) && pool.index == old(pool.index)
                      && disk == old(disk))
                && (out.Victim? ==>
                      var victim := old(pool.frames[out.hand].frame);
                      && |pool.frames| == pool.capacity
                      && var nf := pool.frames[out.hand].frame;
                      && fresh(nf)
                      && Loaded(nf, pageId, ReadPage(old(disk), pageId, pageSize))
                      && pool.frames == Recount(old(pool.frames), out.counters)[out.hand := Slot(0, nf)]
                      && pool.index == (old(pool.index) - {victim.pageId})[pageId := out.hand]
                      && victim.extHolds == (if old(victim.extHolds) > 0 then old(victim.extHolds) - 1 else 0)
                      && victim.page == old(victim.page) && victim.dirty == old(victim.dirty)
                      && if old(victim.dirty) && !writeOk then
                           r == IoError && nf.extHolds == 0 && disk == old(disk)
                         else
                           && r == Fetched(nf) && nf.extHolds == 1
                           && disk == if old(victim.dirty) then WritePage(old(disk), victim.pageId, old(victim.page)) else old(disk))
    {
      ghost var u := UniqueFlags(pool.frames);
      if !readOk {
        return IoError;
      }
      assert UniqueFlags(pool.frames) == u;
      var data := ReadPage(disk, pageId, pageSize);
      var frame := new Frame(pageId, data);
      var pushed := frame.Clone();
      assert UniqueFlags(pool.frames) == u;
      var res := pool.Push(pageId, pushed);
      r := Settle(res, frame, writeOk);
    }

    /**
      Fetches page `pageId`. `readOk` and `writeOk` say whether the disk
      read and the write-back, if the fetch needs them, succeed.

      A resident page is returned with one more handle and a bumped counter,
      and the disk is not touched. Otherwise a failed read changes nothing.
      After a read, a fresh clean frame holding the page's bytes is pushed:
      into a free slot; or over the victim slot, the victim being written
      back first if dirty (a failed write-back reports an error, leaving the
      new frame in the pool with no caller handle); or, when every frame is
      pinned, nowhere, in which case the frame is returned all the same and
      the pool holds no handle to it. The only resident frame a fetch touches
      is the hit frame or the victim, and it keeps that frame's bytes and
      dirty flag.
     */
    method FetchPage(pageId: PageId, readOk: bool, writeOk: bool) returns (r: FetchResult)
      requires pool.Valid() && 0 < pool.capacity
      modifies this, pool, if pageId in pool.index then {pool.frames[SlotOf(pool.index, pageId)].frame} else pool.VictimSet()
      ensures pool.Valid()
      ensures pageId !in old(pool.index) ==>
                forall g :: g in old(pool.VictimSet()) ==> g.page == old(g.page) && g.dirty == old(g.dirty)
      ensures pageId in old(pool.index) ==>
                var i := old(SlotOf(pool.index, pageId));
                var f := old(pool.frames[i].frame);
                && r == Fetched(f)
                && f.pageId == pageId
                && f.extHolds == old(f.extHolds) + 1
                && f.page == old(f.page) && f.dirty == old(f.dirty)
                && pool.frames == old(pool.frames)[i := Slot(old(pool.frames[i].counter) + 1, f)]
                && pool.index == old(pool.index) && pool.clockHand == old(pool.clockHand)
                && disk == old(disk)
      ensures pageId !in old(pool.index) && !readOk ==>
                && r == IoError
                && pool.frames == old(pool.frames)
                && pool.index == old(pool.index) && pool.clockHand == old(pool.clockHand)
                && disk == old(disk)
                && unchanged(old(pool.VictimSet()))
      ensures pageId !in old(pool.index) && readOk && old(|pool.frames|) < pool.capacity ==>
                && r.Fetched? && fresh(r.frame)
                && Loaded(r.frame, pageId, ReadPage(old(disk), pageId, pageSize))
                && r.frame.extHolds == 1
                && pool.frames == old(pool.frames) + [Slot(0, r.frame)]
                && pool.index == old(pool.index)[pageId := old(|pool.frames|)]
                && pool.clockHand == old(pool.clockHand)
                && disk == old(disk)
      ensures pageId !in old(pool.index) && readOk && old(|pool.frames|) == pool.capacity ==>
                var out := Sweep(Counters(old(pool.frames)), old(UniqueFlags(pool.frames)), old(pool.clockHand), 0);
                && pool.clockHand == out.hand
                && (out.Exhausted? ==>
                      && r.Fetched? && fresh(r.frame)
                      && Loaded(r.frame, pageId, ReadPage(old(disk), pageId, pageSize))
                      && r.frame.extHolds == 0
                      && r.frame !in pool.FrameSet()
                      && pool.frames == old(pool.frames) && pool.index == old(pool.index)
                      && disk == old(disk))
                && (out.Victim? ==>
                      var victim := old(pool.frames[out.hand].frame);
                      && |pool.frames| == pool.capacity
                      && var nf := pool.frames[out.hand].frame;
                      && fresh(nf)
                      && Loaded(nf, pageId, ReadPage(old(disk), pageId, pageSize))
                      && pool.frames == Recount(old(pool.frames), out.counters)[out.hand := Slot(0, nf)]
                      && pool.index == (old(pool.index) - {victim.pageId})[pageId := out.hand]
                      && victim.extHolds == (if old(victim.extHolds) > 0 then old(victim.extHolds) - 1 else 0)
                      && victim.page == old(victim.page) && victim.dirty == old(victim.dirty)
                      && if old(victim.dirty) && !writeOk then
                           r == IoError && nf.extHolds == 0 && disk == old(disk)
                         else
                           && r == Fetched(nf) && nf.extHolds == 1
                           && disk == if old(victim.dirty) then WritePage(old(disk), victim.pageId, old(victim.page)) else old(disk))
    {
      ghost var u := UniqueFlags(pool.frames);
      var hit := pool.Request(pageId);
      if hit.Some? {
        // The caller gets a clone; the handle the pool lent goes out of scope.
        var h := hit.value.Clone();
        hit.value.Drop();
        return Fetched(h);
      }
      assert UniqueFlags(pool.frames) == u;
      r := FetchMiss(pageId, readOk, writeOk);
    }

    /**
      A fetch leaves the bytes and the dirty flag of every frame the pool
      held as they were: only a mutable borrow changes them, and nothing
      clears the flag.
     */
    method FetchKeepsPages(pageId: PageId, readOk: bool, writeOk: bool) returns (r: FetchResult)
      requires pool.Valid() && 0 < pool.capacity
      modifies this, pool, pool.FrameSet()
      ensures pool.Valid()
      ensures forall g :: g in old(pool.FrameSet()) ==> g.page == old(g.page) && g.dirty == old(g.dirty)
    {
      r := FetchPage(pageId, readOk, writeOk);
    }
  }
}
