/**
  Buffer frames: a page held in memory, shared between the pool and the
  callers that fetched it. In the system a frame is reference counted; here
  a `Frame` object is the shared record and every handle is a reference to
  it. `extHolds` is the number of handles beyond the first one (the strong
  count minus one): while a frame is resident the pool keeps one handle, so
  `extHolds == 0` means no caller holds it.
 */
module Frames {

  import opened Disk

  class Frame {
    /** The page this frame caches; fixed for the frame's lifetime. */
    const pageId: PageId
    /** The page bytes, shared by every handle. */
    var page: Page
    /** Set by every mutable borrow of the page; nothing clears it. */
    var dirty: bool
    /** Handles to this frame beyond the first. */
    var extHolds: nat

    /** A new frame for `pageId` holding `page`: clean, with a single handle. */
    constructor (pageId: PageId, page: Page)
      ensures this.pageId == pageId && this.page == page
      ensures !dirty && extHolds == 0
    {
      this.pageId := pageId;
      this.page := page;
      dirty := false;
      extHolds := 0;
    }

    /** True when the handle asking is the only one. */
    predicate IsUnique()
      reads this
    {
      extHolds == 0
    }

    /** Another handle to the same frame. */
    method Clone() returns (h: Frame)
      modifies this
      ensures h == this
      ensures extHolds == old(extHolds) + 1
      ensures !IsUnique()
      ensures page == old(page) && dirty == old(dirty)
    {
      extHolds := extHolds + 1;
      h := this;
    }

    /**
      Gives up one handle. Giving up the last one frees the frame, which the
      model does not represent: the count then stays at zero.
     */
    method Drop()
      modifies this
      ensures extHolds == if old(extHolds) > 0 then old(extHolds) - 1 else 0
      ensures old(extHolds) <= 1 ==> IsUnique()
      ensures page == old(page) && dirty == old(dirty)
    {
      if extHolds > 0 {
        extHolds := extHolds - 1;
      }
    }

    /**
      A mutable borrow of the page through which the caller applies `edit`:
      the frame becomes dirty whether or not the bytes change.
     */
    method GetPageMut(edit: Page -> Page)
      modifies this
      ensures dirty
      ensures page == edit(old(page))
      ensures extHolds == old(extHolds)
    {
      dirty := true;
      page := edit(page);
    }
  }
}
