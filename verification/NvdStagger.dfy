/** The shared start slots that spread the requests to the NVD host, on one event loop. */
module NvdStagger {
  import opened Wrappers

  function Max(a: real, b: real): real { if a < b then b else a }

  /** `_nvd_next_start` after callers have arrived at these times. */
  function NextStart(stagger: real, clocks: seq<real>): real {
    if clocks == [] then 0.0
    else Max(clocks[|clocks| - 1], NextStart(stagger, clocks[..|clocks| - 1])) + stagger
  }

  /** The start reserved for the i-th caller. */
  function Start(stagger: real, clocks: seq<real>, i: nat): real
    requires i < |clocks|
  {
    Max(clocks[i], NextStart(stagger, clocks[..i]))
  }

  class Stagger {
    const seconds: real
    var eventLoop: Option<int>
    var nextStart: real
    /** The clocks of the callers served on the current loop. */
    ghost var clocks: seq<real>

    ghost predicate Valid()
      reads this
    {
      eventLoop.Some? ==> nextStart == NextStart(seconds, clocks)
    }

    constructor (seconds: real)
      ensures Valid() && eventLoop == None && clocks == [] && this.seconds == seconds
    {
      this.seconds := seconds;
      eventLoop, nextStart, clocks := None, 0.0, [];
    }

    /** `_nvd_stagger_slot`: the reserved start and how long to sleep until it. */
    method Reserve(running: int, now: real) returns (start: real, sleep: real)
      requires Valid()
      modifies this
      ensures Valid() && eventLoop == Some(running)
      ensures clocks == (if old(eventLoop) == Some(running) then old(clocks) else []) + [now]
      ensures start == Start(seconds, clocks, |clocks| - 1)
      ensures sleep == start - now >= 0.0
    {
      if eventLoop != Some(running) {
        eventLoop, nextStart, clocks := Some(running), 0.0, [];
      }
      start := if now < nextStart then nextStart else now;
      nextStart := start + seconds;
      assert (clocks + [now])[..|clocks|] == clocks;
      clocks := clocks + [now];
      sleep := if start > now then start - now else 0.0;
    }
  }

  lemma NextFollowsStart(stagger: real, clocks: seq<real>, i: nat)
    requires i < |clocks|
    ensures NextStart(stagger, clocks[..i + 1]) == Start(stagger, clocks, i) + stagger
  {
    assert clocks[..i + 1][..i] == clocks[..i];
  }

  /** No start before its caller's clock, and a caller that finds the slot free starts at once. */
  lemma StartsInTime(stagger: real, clocks: seq<real>, i: nat)
    requires i < |clocks| && stagger >= 0.0
    ensures Start(stagger, clocks, i) >= clocks[i]
    ensures (Start(stagger, clocks, i) == clocks[i]) <==>
              (if i == 0 then clocks[i] >= 0.0 else clocks[i] >= Start(stagger, clocks, i - 1) + stagger)
  {
    if i > 0 { NextFollowsStart(stagger, clocks, i - 1); }
  }

  /** No start is later than it has to be: it is its caller's clock, or one stagger after the start before. */
  lemma StartIsEarliest(stagger: real, clocks: seq<real>, i: nat)
    requires i < |clocks| && stagger >= 0.0 && clocks[0] >= 0.0
    ensures Start(stagger, clocks, i) == clocks[i] || (i > 0 && Start(stagger, clocks, i) == Start(stagger, clocks, i - 1) + stagger)
  {
    if i > 0 { NextFollowsStart(stagger, clocks, i - 1); }
  }

  /** n staggers. */
  function Staggers(n: nat, stagger: real): real { if n == 0 then 0.0 else Staggers(n - 1, stagger) + stagger }

  function Times(n: nat, stagger: real): real { n as real * stagger }

  lemma {:induction false} StaggersIsProduct(n: nat, stagger: real)
    ensures Staggers(n, stagger) == Times(n, stagger)
  {
    if n > 0 {
      StaggersIsProduct(n - 1, stagger);
      assert n as real * stagger == (n as real - 1.0) * stagger + stagger;
    }
  }

  lemma {:induction false} StaggersGrow(m: nat, n: nat, stagger: real)
    requires m <= n && stagger >= 0.0
    ensures 0.0 <= Staggers(m, stagger) <= Staggers(n, stagger)
    decreases m + n
  {
    if m > 0 { StaggersGrow(m - 1, m - 1, stagger); }
    if m < n { StaggersGrow(m, n - 1, stagger); }
  }

  lemma {:induction false} SpacedByStaggers(stagger: real, clocks: seq<real>, i: nat, j: nat)
    requires i <= j < |clocks|
    ensures Start(stagger, clocks, j) - Start(stagger, clocks, i) >= Staggers(j - i, stagger)
    decreases j - i
  {
    if i < j {
      SpacedByStaggers(stagger, clocks, i, j - 1);
      NextFollowsStart(stagger, clocks, j - 1);
    }
  }

  /** The i-th and the j-th start are at least |i - j| staggers apart, whatever the clocks show. */
  lemma StartsAreSpaced(stagger: real, clocks: seq<real>, i: nat, j: nat)
    requires i <= j < |clocks|
    ensures Start(stagger, clocks, j) - Start(stagger, clocks, i) >= Times(j - i, stagger)
  {
    hide Times, Start, Staggers;
    SpacedByStaggers(stagger, clocks, i, j);
    StaggersIsProduct(j - i, stagger);
  }

  predicate Within(x: real, lo: real, hi: real) { lo <= x <= hi }

  /** How many of the first n starts lie in [lo, hi]. */
  function StartsWithin(stagger: real, clocks: seq<real>, n: nat, lo: real, hi: real): nat
    requires n <= |clocks|
  {
    if n == 0 then 0
    else StartsWithin(stagger, clocks, n - 1, lo, hi) + if Within(Start(stagger, clocks, n - 1), lo, hi) then 1 else 0
  }

  lemma {:induction false} FirstAndLastWithin(stagger: real, clocks: seq<real>, n: nat, lo: real, hi: real) returns (i: nat, j: nat)
    requires n <= |clocks| && StartsWithin(stagger, clocks, n, lo, hi) >= 1
    ensures i <= j < n && j - i >= StartsWithin(stagger, clocks, n, lo, hi) - 1
    ensures Within(Start(stagger, clocks, i), lo, hi) && Within(Start(stagger, clocks, j), lo, hi)
  {
    if StartsWithin(stagger, clocks, n - 1, lo, hi) == 0 {
      i, j := n - 1, n - 1;
    } else {
      i, j := FirstAndLastWithin(stagger, clocks, n - 1, lo, hi);
      if Within(Start(stagger, clocks, n - 1), lo, hi) { j := n - 1; }
    }
  }

  lemma DivideByStagger(n: nat, stagger: real, length: real)
    requires stagger > 0.0 && Staggers(n, stagger) <= length
    ensures n <= (length / stagger).Floor
  {
    StaggersIsProduct(n, stagger);
    var q := Quotient(length, stagger);
    ProductOrder(q, n as real, stagger);
    assert !(q < n as real);
    FloorAbove(q, n);
  }

  lemma Quotient(a: real, b: real) returns (q: real)
    requires b > 0.0
    ensures q == a / b && q * b == a
  {
    q := a / b;
  }

  lemma FloorAbove(q: real, n: nat)
    ensures n as real <= q ==> n <= q.Floor
  {
  }

  lemma ProductOrder(a: real, b: real, c: real)
    requires c > 0.0
    ensures a < b ==> a * c < b * c
  {
  }

  /** An interval of any length holds at most floor(length / stagger) + 1 starts. */
  lemma IntervalBound(stagger: real, clocks: seq<real>, lo: real, length: real)
    requires stagger > 0.0 && length >= 0.0
    ensures StartsWithin(stagger, clocks, |clocks|, lo, lo + length) <= (length / stagger).Floor + 1
  {
    hide Start;
    var count := StartsWithin(stagger, clocks, |clocks|, lo, lo + length);
    if count >= 1 {
      var i, j := FirstAndLastWithin(stagger, clocks, |clocks|, lo, lo + length);
      SpacedByStaggers(stagger, clocks, i, j);
      StaggersGrow(count - 1, j - i, stagger);
      DivideByStagger(count - 1, stagger, length);
    } else {
      DivideByStagger(0, stagger, length);
    }
  }

  /** The bound is reached: callers that arrive together start exactly one stagger apart. */
  lemma {:induction false} BurstByStaggers(stagger: real, clocks: seq<real>, t: real, i: nat)
    requires stagger >= 0.0 && t >= 0.0 && i < |clocks| && forall k :: 0 <= k < |clocks| ==> clocks[k] == t
    ensures Start(stagger, clocks, i) == t + Staggers(i, stagger)
  {
    if i > 0 {
      BurstByStaggers(stagger, clocks, t, i - 1);
      NextFollowsStart(stagger, clocks, i - 1);
      StaggersGrow(i - 1, i, stagger);
    }
  }

  lemma BurstIsEvenlySpaced(stagger: real, clocks: seq<real>, t: real, i: nat)
    requires stagger >= 0.0 && t >= 0.0 && i < |clocks| && forall k :: 0 <= k < |clocks| ==> clocks[k] == t
    ensures Start(stagger, clocks, i) == t + Times(i, stagger)
  {
    BurstByStaggers(stagger, clocks, t, i);
    StaggersIsProduct(i, stagger);
  }

  // ---------- which budgets hold ----------

  /** At most n starts in the closed interval of this length that begins at lo. */
  predicate WithinBudget(stagger: real, clocks: seq<real>, lo: real, length: real, n: nat) {
    StartsWithin(stagger, clocks, |clocks|, lo, lo + length) <= n
  }

  /** n callers that arrive together at time 0. */
  function Burst(n: nat): (clocks: seq<real>)
    ensures |clocks| == n && forall k :: 0 <= k < n ==> clocks[k] == 0.0
  {
    seq(n, _ => 0.0)
  }

  /** Every start of a burst lies in an interval that is long enough for the last one. */
  lemma {:induction false} BurstCount(stagger: real, clocks: seq<real>, n: nat, length: real)
    requires stagger >= 0.0 && n <= |clocks| && forall k :: 0 <= k < |clocks| ==> clocks[k] == 0.0
    requires n > 0 ==> Staggers(n - 1, stagger) <= length
    ensures StartsWithin(stagger, clocks, n, 0.0, 0.0 + length) == n
  {
    hide Start;
    if n > 0 {
      if n > 1 { StaggersGrow(n - 2, n - 1, stagger); }
      BurstCount(stagger, clocks, n - 1, length);
      BurstByStaggers(stagger, clocks, 0.0, n - 1);
      StaggersGrow(0, n - 1, stagger);
    }
  }

  /** When the n-th start after a first one falls outside, no interval holds more than n. */
  lemma BudgetHolds(stagger: real, clocks: seq<real>, lo: real, length: real, n: nat)
    requires stagger > 0.0 && length >= 0.0 && length < Staggers(n, stagger)
    ensures WithinBudget(stagger, clocks, lo, length, n)
  {
    hide Start, Staggers;
    var count := StartsWithin(stagger, clocks, |clocks|, lo, lo + length);
    if count > n {
      var i, j := FirstAndLastWithin(stagger, clocks, |clocks|, lo, lo + length);
      SpacedByStaggers(stagger, clocks, i, j);
      StaggersGrow(n, j - i, stagger);
    }
  }

  /** The budget is kept whatever the clocks of the callers show. */
  ghost predicate KeepsBudget(stagger: real, length: real, n: nat) {
    forall clocks, lo :: WithinBudget(stagger, clocks, lo, length, n)
  }

  /** The exact condition for a budget of n starts per interval: n staggers are longer than the interval. */
  lemma BudgetIsExact(stagger: real, length: real, n: nat)
    requires stagger > 0.0 && length >= 0.0
    ensures KeepsBudget(stagger, length, n) <==> length < Times(n, stagger)
  {
    hide WithinBudget, Times;
    StaggersIsProduct(n, stagger);
    if length < Times(n, stagger) {
      forall clocks, lo ensures WithinBudget(stagger, clocks, lo, length, n) {
        BudgetHolds(stagger, clocks, lo, length, n);
      }
    } else {
      BurstCount(stagger, Burst(n + 1), n + 1, length);
      OverBudget(stagger, length, n);
    }
  }

  lemma OverBudget(stagger: real, length: real, n: nat)
    requires StartsWithin(stagger, Burst(n + 1), n + 1, 0.0, 0.0 + length) == n + 1
    ensures !WithinBudget(stagger, Burst(n + 1), 0.0, length, n)
  {
  }

  const NVD_STAGGER_SECONDS: real := 2.0
  const NVD_PERIOD: real := 30.0
  const NVD_LIMIT: nat := 5

  /** The stagger of the code keeps to 16 starts in 30 seconds, and a burst of 16 callers makes 16. */
  lemma SixteenInThirtySeconds()
    ensures KeepsBudget(NVD_STAGGER_SECONDS, NVD_PERIOD, 16)
    ensures StartsWithin(NVD_STAGGER_SECONDS, Burst(16), 16, 0.0, 0.0 + NVD_PERIOD) == 16
    ensures !KeepsBudget(NVD_STAGGER_SECONDS, NVD_PERIOD, NVD_LIMIT)
  {
    hide KeepsBudget, StartsWithin;
    BudgetIsExact(NVD_STAGGER_SECONDS, NVD_PERIOD, 16);
    BudgetIsExact(NVD_STAGGER_SECONDS, NVD_PERIOD, NVD_LIMIT);
    StaggersIsProduct(15, NVD_STAGGER_SECONDS);
    BurstCount(NVD_STAGGER_SECONDS, Burst(16), 16, NVD_PERIOD);
  }

  /** NVD's limit of 5 requests in 30 seconds is kept by the staggers of more than 6 seconds and by no others. */
  lemma NvdLimitIsExact(stagger: real)
    requires stagger > 0.0
    ensures KeepsBudget(stagger, NVD_PERIOD, NVD_LIMIT) <==> stagger > 6.0
  {
    hide KeepsBudget;
    BudgetIsExact(stagger, NVD_PERIOD, NVD_LIMIT);
  }
}
