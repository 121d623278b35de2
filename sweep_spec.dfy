/**
  The victim search of the CLOCK (second-chance) policy, as a function on
  values: the use counters of the slots, whether each slot's frame is held
  by nobody but the pool, the clock hand and the number of consecutive
  failures so far. `Clock.Scan` runs this search as a loop on a working
  copy of the slots, which `ClockSweep.FindVictim` stores back into the
  pool; both, and `ClockSweep.Push`, are specified by it.
 */
module SweepSpec {

  /** The hand position after `hand` on a clock of `n` slots. */
  function NextHand(hand: nat, n: nat): (r: nat)
    requires 0 < n
    ensures r < n
    ensures hand < n ==> r == if hand + 1 == n then 0 else hand + 1
  {
    (hand + 1) % n
  }

  /** Sum of the use counters: the search's first termination measure. */
  function Sum(c: seq<nat>): nat
  {
    if c == [] then 0 else c[0] + Sum(c[1..])
  }

  lemma {:induction false} SumDecrement(c: seq<nat>, i: nat)
    requires i < |c| && c[i] > 0
    ensures Sum(c[i := c[i] - 1]) == Sum(c) - 1
  {
    if i == 0 {
      assert c[i := c[i] - 1][1..] == c[1..];
    } else {
      assert c[i := c[i] - 1][1..] == c[1..][i - 1 := c[i] - 1];
      SumDecrement(c[1..], i - 1);
    }
  }

  /**
    How a search ends: at a victim slot (the hand stays on it), or with the
    pool found full (the hand on the last slot inspected). Both carry the
    counters as the search left them.
   */
  datatype SweepOutcome =
    | Victim(hand: nat, counters: seq<nat>)
    | Exhausted(hand: nat, counters: seq<nat>)

  /**
    The search from `hand` with `fail` consecutive failures already counted.
    A slot with counter 0 is the victim, whoever holds its frame. A slot
    whose frame only the pool holds loses one from its counter and resets
    the failure count. Any other slot is a failure; the search gives up when
    the failures reach the number of slots.
   */
  function Sweep(c: seq<nat>, u: seq<bool>, hand: nat, fail: nat): (r: SweepOutcome)
    requires |u| == |c| && hand < |c| && fail < |c|
    ensures r.hand < |c| && |r.counters| == |c|
    ensures r.Victim? ==> r.counters[r.hand] == 0
    decreases Sum(c), |c| - fail
  {
    if c[hand] == 0 then
      Victim(hand, c)
    else if u[hand] then
      SumDecrement(c, hand);
      Sweep(c[hand := c[hand] - 1], u, NextHand(hand, |c|), 0)
    else if fail + 1 >= |c| then
      Exhausted(hand, c)
    else
      Sweep(c, u, NextHand(hand, |c|), fail + 1)
  }

  /**
    The search only ever lowers counters, and only those of slots whose
    frame the pool alone holds.
   */
  lemma {:induction false} SweepOnlyLowersUnpinned(c: seq<nat>, u: seq<bool>, hand: nat, fail: nat)
    requires |u| == |c| && hand < |c| && fail < |c|
    ensures forall i :: 0 <= i < |c| ==> Sweep(c, u, hand, fail).counters[i] <= c[i]
    ensures forall i :: 0 <= i < |c| && !u[i] ==> Sweep(c, u, hand, fail).counters[i] == c[i]
    decreases Sum(c), |c| - fail
  {
    if c[hand] == 0 {
    } else if u[hand] {
      SumDecrement(c, hand);
      SweepOnlyLowersUnpinned(c[hand := c[hand] - 1], u, NextHand(hand, |c|), 0);
    } else if fail + 1 < |c| {
      SweepOnlyLowersUnpinned(c, u, NextHand(hand, |c|), fail + 1);
    }
  }

  /** One step of the search, as the loop that runs it in place takes it. */
  lemma SweepStep(c: seq<nat>, u: seq<bool>, hand: nat, fail: nat)
    requires |u| == |c| && hand < |c| && fail < |c| && c[hand] > 0
    ensures u[hand] ==>
              Sweep(c, u, hand, fail) == Sweep(c[hand := c[hand] - 1], u, NextHand(hand, |c|), 0)
              && Sum(c[hand := c[hand] - 1]) < Sum(c)
    ensures !u[hand] && fail + 1 < |c| ==>
              Sweep(c, u, hand, fail) == Sweep(c, u, NextHand(hand, |c|), fail + 1)
    ensures !u[hand] && fail + 1 >= |c| ==> Sweep(c, u, hand, fail) == Exhausted(hand, c)
  {
    if u[hand] {
      SumDecrement(c, hand);
    }
  }

  /** Every slot has a positive counter and a frame some caller still holds. */
  ghost predicate AllPinned(c: seq<nat>, u: seq<bool>)
    requires |u| == |c|
  {
    forall i :: 0 <= i < |c| ==> c[i] > 0 && !u[i]
  }

  /** Steps the hand needs to go from `h` to `j` on a clock of `n` slots. */
  function Dist(h: nat, j: nat, n: nat): nat
    requires h < n && j < n
  {
    if h <= j then j - h else j + n - h
  }

  lemma DistStep(h: nat, j: nat, n: nat)
    requires h < n && j < n
    ensures j != h ==> Dist(NextHand(h, n), j, n) == Dist(h, j, n) - 1
    ensures Dist(NextHand(h, n), h, n) == n - 1
  {
  }

  /** `(h + k) % n` for a hand `h` and a step count `k` below `n`. */
  lemma ModSmall(h: nat, k: nat, n: nat)
    requires h < n && k < n
    ensures (h + k) % n == if h + k < n then h + k else h + k - n
  {
    if h + k >= n {
      assert h + k == n + (h + k - n);
    }
  }

  /**
    On a fully pinned clock nothing is decremented, and the search gives up
    after visiting the remaining slots of its window of `n` failures.
   */
  lemma {:induction false} PinnedSweepExhausts(c: seq<nat>, u: seq<bool>, hand: nat, fail: nat)
    requires |u| == |c| && hand < |c| && fail < |c|
    requires AllPinned(c, u)
    ensures Sweep(c, u, hand, fail) == Exhausted((hand + (|c| - 1 - fail)) % |c|, c)
    decreases |c| - fail
  {
    var n := |c|;
    assert c[hand] > 0 && !u[hand];
    if fail + 1 >= n {
      ModSmall(hand, 0, n);
    } else {
      var h' := NextHand(hand, n);
      PinnedSweepExhausts(c, u, h', fail + 1);
      ModSmall(h', n - 2 - fail, n);
      ModSmall(hand, n - 1 - fail, n);
    }
  }

  /**
    A slot that is unpinned (counter 0, or a frame only the pool holds) and
    lies within reach of the remaining failure budget keeps the search from
    giving up.
   */
  lemma {:induction false} UnpinnedSlotPreventsExhaustion(c: seq<nat>, u: seq<bool>, hand: nat, fail: nat, j: nat)
    requires |u| == |c| && hand < |c| && fail < |c|
    requires j < |c| && (u[j] || c[j] == 0)
    requires fail + Dist(hand, j, |c|) < |c|
    ensures Sweep(c, u, hand, fail).Victim?
    decreases Sum(c), |c| - fail
  {
    var n := |c|;
    DistStep(hand, j, n);
    if c[hand] == 0 {
    } else if u[hand] {
      SumDecrement(c, hand);
      UnpinnedSlotPreventsExhaustion(c[hand := c[hand] - 1], u, NextHand(hand, n), 0, j);
    } else {
      UnpinnedSlotPreventsExhaustion(c, u, NextHand(hand, n), fail + 1, j);
    }
  }

  /**
    A fresh search (no failures yet) gives up exactly when every slot is
    pinned; it then leaves every counter as it was and the hand `n - 1`
    steps further on.
   */
  lemma SweepExhaustedIff(c: seq<nat>, u: seq<bool>, hand: nat)
    requires |u| == |c| && hand < |c|
    ensures Sweep(c, u, hand, 0).Exhausted? <==> AllPinned(c, u)
    ensures Sweep(c, u, hand, 0).Exhausted? ==>
              Sweep(c, u, hand, 0) == Exhausted((hand + |c| - 1) % |c|, c)
  {
    if AllPinned(c, u) {
      PinnedSweepExhausts(c, u, hand, 0);
    } else {
      var j :| 0 <= j < |c| && !(c[j] > 0 && !u[j]);
      UnpinnedSlotPreventsExhaustion(c, u, hand, 0, j);
    }
  }

  /**
    The victim is the first slot reached from the hand whose counter is 0,
    provided it is reached within the failure budget; each slot passed on
    the way loses one from its counter if its frame is held by the pool
    alone, and keeps it otherwise. The victim itself need not be unpinned.
   */
  lemma {:induction false} FirstZeroIsVictim(c: seq<nat>, u: seq<bool>, hand: nat, fail: nat, j: nat)
    requires |u| == |c| && hand < |c| && fail < |c| && j < |c|
    requires c[j] == 0
    requires forall i :: 0 <= i < |c| && Dist(hand, i, |c|) < Dist(hand, j, |c|) ==> c[i] > 0
    requires fail + Dist(hand, j, |c|) < |c|
    ensures Sweep(c, u, hand, fail).Victim? && Sweep(c, u, hand, fail).hand == j
    ensures forall i :: 0 <= i < |c| ==>
              Sweep(c, u, hand, fail).counters[i]
              == if Dist(hand, i, |c|) < Dist(hand, j, |c|) && u[i] then c[i] - 1 else c[i]
    decreases Dist(hand, j, |c|)
  {
    var n := |c|;
    if hand != j {
      var h' := NextHand(hand, n);
      assert Dist(hand, hand, n) == 0;
      forall i | 0 <= i < n
        ensures Dist(h', i, n) == if i == hand then n - 1 else Dist(hand, i, n) - 1
      {
        DistStep(hand, i, n);
      }
      if u[hand] {
        var c' := c[hand := c[hand] - 1];
        FirstZeroIsVictim(c', u, h', 0, j);
      } else {
        FirstZeroIsVictim(c, u, h', fail + 1, j);
      }
    }
  }
}
