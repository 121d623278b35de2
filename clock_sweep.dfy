/**
  The CLOCK replacement policy: a fixed number of slots, each a use counter
  and a frame, an index from page id to slot, and a clock hand.
 */
module Clock {

  import opened Wrappers
  import opened Disk
  import opened Frames
  import opened SweepSpec

  /** Capacity used when no size hint is given. */
  const DefaultCapacity: nat := 1024

  /**
    The error type of `push`. `Success` is reported as an error value and
    means "inserted into a free slot, nothing evicted".
   */
  datatype ClockSweepError = Success | PoolIsFull

  /** What `push` returns: the evicted page and its frame, or an error value. */
  datatype PushResult =
    | Ok(evictedId: PageId, evicted: Frame)
    | Err(error: ClockSweepError)

  /** A slot of the clock: a use counter and the pool's handle to a frame. */
  datatype Slot = Slot(counter: nat, frame: Frame)

  /** The use counters of `s`, slot by slot. */
  function Counters(s: seq<Slot>): seq<nat>
  {
    seq(|s|, i requires 0 <= i < |s| => s[i].counter)
  }

  /** The frames of `s`, slot by slot. */
  function Handles(s: seq<Slot>): seq<Frame>
  {
    seq(|s|, i requires 0 <= i < |s| => s[i].frame)
  }

  /** The slots `s` with their counters replaced by `c`, slot by slot. */
  function Recount(s: seq<Slot>, c: seq<nat>): seq<Slot>
    requires |c| == |s|
  {
    seq(|s|, i requires 0 <= i < |s| => Slot(c[i], s[i].frame))
  }

  /** Slots with the frames of `s` are `s` recounted with their own counters. */
  lemma RecountOf(s: seq<Slot>, t: seq<Slot>)
    requires Handles(t) == Handles(s)
    ensures |Counters(t)| == |s| && t == Recount(s, Counters(t))
  {
    assert |t| == |Handles(t)| == |Handles(s)| == |s|;
    forall i | 0 <= i < |s| ensures t[i] == Recount(s, Counters(t))[i] {
      assert t[i].frame == Handles(t)[i] == Handles(s)[i] == s[i].frame;
    }
  }

  /** Recounting keeps the frames and sets the counters. */
  lemma RecountParts(s: seq<Slot>, c: seq<nat>)
    requires |c| == |s|
    ensures Handles(Recount(s, c)) == Handles(s)
    ensures Counters(Recount(s, c)) == c
  {
  }

  /** Slots are determined by their counters and their frames. */
  lemma SlotsExt(s: seq<Slot>, t: seq<Slot>)
    requires Counters(s) == Counters(t) && Handles(s) == Handles(t)
    ensures s == t
  {
    assert |s| == |t|;
    forall i | 0 <= i < |s| ensures s[i] == t[i] {
      assert s[i].counter == Counters(s)[i] == Counters(t)[i] == t[i].counter;
      assert s[i].frame == Handles(s)[i] == Handles(t)[i] == t[i].frame;
    }
  }

  /** Overwriting one slot changes that slot's counter and frame only. */
  lemma SetSlot(s: seq<Slot>, i: nat, x: Slot)
    requires i < |s|
    ensures Counters(s[i := x]) == Counters(s)[i := x.counter]
    ensures Handles(s[i := x]) == Handles(s)[i := x.frame]
  {
    var t := s[i := x];
    assert forall j :: 0 <= j < |s| ==> Counters(t)[j] == Counters(s)[i := x.counter][j];
    assert forall j :: 0 <= j < |s| ==> Handles(t)[j] == Handles(s)[i := x.frame][j];
  }

  /** Appending a slot appends its counter and its frame. */
  lemma AppendSlot(s: seq<Slot>, x: Slot)
    ensures Counters(s + [x]) == Counters(s) + [x.counter]
    ensures Handles(s + [x]) == Handles(s) + [x.frame]
  {
    var t := s + [x];
    assert forall j :: 0 <= j < |t| ==> Counters(t)[j] == (Counters(s) + [x.counter])[j];
    assert forall j :: 0 <= j < |t| ==> Handles(t)[j] == (Handles(s) + [x.frame])[j];
  }

  /** Whether the pool holds the only handle to each slot's frame. */
  ghost function UniqueFlags(s: seq<Slot>): (u: seq<bool>)
    reads set i | 0 <= i < |s| :: s[i].frame
    ensures |u| == |s|
    ensures forall i :: 0 <= i < |s| ==> u[i] == s[i].frame.IsUnique()
  {
    seq(|s|, i requires 0 <= i < |s| reads set k | 0 <= k < |s| :: s[k].frame => s[i].frame.IsUnique())
  }

  /**
    The index matches the frames: every indexed page sits in the slot the
    index names, every slot's page is indexed at that slot, and there are as
    many entries as slots.
   */
  ghost predicate Indexed(index: map<PageId, nat>, fs: seq<Frame>)
  {
    && |index| == |fs|
    && (forall p {:trigger SlotOf(index, p)} :: p in index ==> SlotOf(index, p) < |fs| && PageAt(fs, SlotOf(index, p)) == p)
    && (forall i {:trigger PageAt(fs, i)} :: 0 <= i < |fs| ==> PageAt(fs, i) in index && index[PageAt(fs, i)] == i)
  }

  /** The slot the index gives page `p`. */
  ghost function SlotOf(index: map<PageId, nat>, p: PageId): nat
    requires p in index
  {
    index[p]
  }

  /** The page of the frame in slot `i`. */
  ghost function PageAt(fs: seq<Frame>, i: nat): PageId
    requires i < |fs|
  {
    fs[i].pageId
  }

  /** Appending a frame for a page not yet indexed, at the next slot, keeps the index consistent. */
  lemma IndexedAppend(index: map<PageId, nat>, fs: seq<Frame>, f: Frame)
    requires Indexed(index, fs) && f.pageId !in index
    ensures Indexed(index[f.pageId := |fs|], fs + [f])
  {
    var index', fs' := index[f.pageId := |fs|], fs + [f];
    forall p | p in index' ensures index'[p] < |fs'| && PageAt(fs', index'[p]) == p {
      if p != f.pageId {
        assert PageAt(fs, SlotOf(index, p)) == p;
      }
    }
    forall i | 0 <= i < |fs'| ensures PageAt(fs', i) in index' && index'[PageAt(fs', i)] == i {
      if i < |fs| {
        assert PageAt(fs', i) == PageAt(fs, i);
      }
    }
  }

  /**
    Replacing the frame of slot `v` by a frame for a page not yet indexed,
    while the index drops the old page and maps the new one to `v`, keeps
    the index consistent.
   */
  lemma IndexedReplace(index: map<PageId, nat>, fs: seq<Frame>, v: nat, f: Frame)
    requires Indexed(index, fs) && v < |fs| && f.pageId !in index
    ensures Indexed((index - {fs[v].pageId})[f.pageId := v], fs[v := f])
  {
    var q := PageAt(fs, v);
    var index', fs' := (index - {q})[f.pageId := v], fs[v := f];
    assert |index - {q}| == |index| - 1;
    forall p | p in index' ensures index'[p] < |fs'| && PageAt(fs', index'[p]) == p {
      if p != f.pageId {
        assert PageAt(fs, SlotOf(index, p)) == p;
        assert PageAt(fs', index[p]) == PageAt(fs, index[p]);
      }
    }
    forall i | 0 <= i < |fs'| ensures PageAt(fs', i) in index' && index'[PageAt(fs', i)] == i {
      if i != v {
        assert PageAt(fs', i) == PageAt(fs, i);
      }
    }
  }

  /**
    The victim search of `push` on the slots `s` from the hand `hand0`,
    run on a working copy: it returns the slots with the counters `Sweep`
    leaves and their frames unchanged, the hand where the search stops, and
    whether it gave up, in which case the slots are as they were.
   */
  method Scan(s: seq<Slot>, hand0: nat) returns (fs: seq<Slot>, hand: nat, full: bool)
    requires hand0 < |s|
    ensures var out := Sweep(Counters(s), UniqueFlags(s), hand0, 0);
            && full == out.Exhausted?
            && hand == out.hand
            && fs == Recount(s, out.counters)
    ensures full ==> fs == s
  {
    ghost var c0 := Counters(s);
    ghost var u := UniqueFlags(s);
    ghost var hs := Handles(s);
    ghost var c := c0;
    fs, hand := s, hand0;
    var consecutiveFail: nat := 0;
    full := false;
    while true
      invariant |fs| == |s| && hand < |s| && consecutiveFail < |s|
      invariant Handles(fs) == hs && Counters(fs) == c
      invariant Sweep(c, u, hand, consecutiveFail) == Sweep(c0, u, hand0, 0)
      decreases Sum(c), |s| - consecutiveFail
    {
      var slot := fs[hand];
      assert slot.frame == hs[hand] == s[hand].frame && slot.counter == c[hand];
      if slot.counter == 0 {
        assert Sweep(c, u, hand, consecutiveFail) == Victim(hand, c);
        break;
      }
      SweepStep(c, u, hand, consecutiveFail);
      if slot.frame.IsUnique() {
        consecutiveFail := 0;
        SetSlot(fs, hand, Slot(slot.counter - 1, slot.frame));
        assert Handles(fs)[hand := slot.frame] == Handles(fs);
        fs := fs[hand := Slot(slot.counter - 1, slot.frame)];
        c := c[hand := c[hand] - 1];
      } else {
        consecutiveFail := consecutiveFail + 1;
        if consecutiveFail >= |fs| {
          full := true;
          break;
        }
      }
      hand := NextHand(hand, |fs|);
    }
    if full {
      SweepExhaustedIff(c0, u, hand0);
      SlotsExt(fs, s);
    }
    RecountOf(s, fs);
  }

  class ClockSweep {
    /** Number of slots, fixed when the pool is made. */
    const capacity: nat
    /** The slot the next victim search starts from. */
    var clockHand: nat
    /** The occupied slots, filled from index 0 up. */
    var frames: seq<Slot>
    /** Page id to slot index. */
    var index: map<PageId, nat>

    /**
      The pool's invariant: no more slots are used than the capacity allows,
      the hand points at a slot of a non-empty clock, and the index matches
      the slots.
     */
    ghost predicate Valid()
      reads this
    {
      && |frames| <= capacity
      && (0 < capacity ==> clockHand < capacity)
      && Indexed(index, Handles(frames))
    }

    /** The frames the pool holds a handle to. */
    ghost function FrameSet(): set<Frame>
      reads this
    {
      set i | 0 <= i < |frames| :: frames[i].frame
    }

    /**
      The frame a push would evict in the current state: the victim of the
      search over a full pool; none while a slot is free or when every frame
      is pinned.
     */
    ghost function VictimSet(): set<Frame>
      requires Valid() && 0 < capacity
      reads this, FrameSet()
    {
      if |frames| < capacity then {}
      else
        var out := Sweep(Counters(frames), UniqueFlags(frames), clockHand, 0);
        if out.Victim? then {frames[out.hand].frame} else {}
    }

    /** An empty pool of `sizeHint` slots, or of the default number. */
    constructor (sizeHint: Option<nat>)
      ensures Valid()
      ensures capacity == if sizeHint.Some? then sizeHint.value else DefaultCapacity
      ensures clockHand == 0 && frames == [] && index == map[]
    {
      capacity := if sizeHint.Some? then sizeHint.value else DefaultCapacity;
      clockHand := 0;
      frames := [];
      index := map[];
    }

    /**
      Looks `pageId` up. On a hit the slot's counter goes up by one and a new
      handle to its frame is returned; nothing else changes. On a miss
      nothing changes at all.
     */
    method Request(pageId: PageId) returns (r: Option<Frame>)
      requires Valid()
      modifies this, if pageId in index then {frames[SlotOf(index, pageId)].frame} else {}
      ensures Valid()
      ensures index == old(index) && clockHand == old(clockHand)
      ensures pageId !in index ==> r == None && frames == old(frames)
      ensures pageId in index ==>
                var i := SlotOf(index, pageId);
                var f := old(frames[i].frame);
                && r == Some(f)
                && f.pageId == pageId
                && frames == old(frames)[i := Slot(old(frames[i].counter) + 1, f)]
                && f.extHolds == old(f.extHolds) + 1
                && f.page == old(f.page) && f.dirty == old(f.dirty)
    {
      if pageId in index {
        var i := index[pageId];
        assert SlotOf(index, pageId) == i < |frames|;
        var slot := frames[i];
        SetSlot(frames, i, Slot(slot.counter + 1, slot.frame));
        assert Handles(frames)[i := slot.frame] == Handles(frames);
        frames := frames[i := Slot(slot.counter + 1, slot.frame)];
        var h := slot.frame.Clone();
        r := Some(h);
      } else {
        r := None;
      }
    }

    /** `Request` with a hint; this policy has no use for the hint. */
    method RequestWithHint(hint: (), pageId: PageId) returns (r: Option<Frame>)
      requires Valid()
      modifies this, if pageId in index then {frames[SlotOf(index, pageId)].frame} else {}
      ensures Valid()
      ensures index == old(index) && clockHand == old(clockHand)
      ensures pageId !in index ==> r == None && frames == old(frames)
      ensures pageId in index ==>
                var i := SlotOf(index, pageId);
                var f := old(frames[i].frame);
                && r == Some(f)
                && f.pageId == pageId
                && frames == old(frames)[i := Slot(old(frames[i].counter) + 1, f)]
                && f.extHolds == old(f.extHolds) + 1
                && f.page == old(f.page) && f.dirty == old(f.dirty)
    {
      r := Request(pageId);
    }

    /**
      The victim search of a full pool from the clock hand. The counters and
      the hand end as `Sweep` says and the slots keep their frames; `full`
      reports that the search gave up, in which case only the hand has
      moved. The search runs on a working copy of the slots and the hand
      (`Scan`), stored back when it ends.
     */
    method FindVictim() returns (full: bool)
      requires 0 < capacity && |frames| == capacity && clockHand < capacity
      modifies this
      ensures var out := Sweep(Counters(old(frames)), old(UniqueFlags(frames)), old(clockHand), 0);
              && full == out.Exhausted?
              && clockHand == out.hand
              && frames == Recount(old(frames), out.counters)
              && index == old(index)
      ensures full ==> frames == old(frames)
    {
      var fs, hand;
      fs, hand, full := Scan(frames, clockHand);
      frames, clockHand := fs, hand;
    }

    /**
      Inserts `frame` for `pageId`, taking over the handle it is given.
      With a free slot, appends it with counter 0 and reports `Success`.
      Otherwise runs the victim search from the clock hand: on a victim,
      the victim's page leaves the index and the new frame takes its slot
      with counter 0, the hand staying there; if the pool is full of pinned
      frames, reports `PoolIsFull`, changes nothing but the hand and drops
      the handle it was given.
     */
    method Push(pageId: PageId, frame: Frame) returns (r: PushResult)
      requires Valid()
      requires 0 < capacity
      requires pageId !in index && frame.pageId == pageId
      modifies this, frame
      ensures Valid()
      ensures frame.page == old(frame.page) && frame.dirty == old(frame.dirty)
      ensures old(|frames|) < capacity ==>
                && r == Err(Success)
                && frames == old(frames) + [Slot(0, frame)]
                && index == old(index)[pageId := old(|frames|)]
                && clockHand == old(clockHand)
                && frame.extHolds == old(frame.extHolds)
      ensures old(|frames|) == capacity ==> |frames| == capacity
      ensures old(|frames|) == capacity ==>
                var out := Sweep(Counters(old(frames)), old(UniqueFlags(frames)), old(clockHand), 0);
                && clockHand == out.hand
                && (out.Victim? ==>
                      var victim := old(frames[out.hand].frame);
                      && r == Ok(victim.pageId, victim)
                      && frames == Recount(old(frames), out.counters)[out.hand := Slot(0, frame)]
                      && index == (old(index) - {victim.pageId})[pageId := out.hand]
                      && frame.extHolds == old(frame.extHolds))
                && (out.Exhausted? ==>
                      && r == Err(PoolIsFull)
                      && frames == old(frames)
                      && index == old(index)
                      && frame.extHolds == if old(frame.extHolds) > 0 then old(frame.extHolds) - 1 else 0)
    {
      if |frames| < capacity {
        var i := |frames|;
        AppendSlot(frames, Slot(0, frame));
        IndexedAppend(index, Handles(frames), frame);
        frames := frames + [Slot(0, frame)];
        index := index[pageId := i];
        return Err(Success);
      }

      var full := FindVictim();
      if full {
        frame.Drop();
        return Err(PoolIsFull);
      }

      ghost var out := Sweep(Counters(old(frames)), old(UniqueFlags(frames)), old(clockHand), 0);
      RecountParts(old(frames), out.counters);
      var bufIdx := clockHand;
      assert PageAt(Handles(frames), clockHand) == frames[clockHand].frame.pageId;
      var removePageId := frames[clockHand].frame.pageId;
      var oldIdx := index[removePageId];
      index := index - {removePageId};
      var oldFrame := frames[oldIdx].frame;
      SetSlot(frames, oldIdx, Slot(0, frame));
      IndexedReplace(old(index), Handles(frames), oldIdx, frame);
      frames := frames[oldIdx := Slot(0, frame)];
      index := index[pageId := bufIdx];
      r := Ok(removePageId, oldFrame);
    }
  }
}
