/**
 What Scheduler::loop sees of the outside world (clock, state_, a random factor, rps_, a queue's
 size), look by look, and what an epoch is that follows it: a tick for every test that sees
 RUNNING, spun as long as the budget says, with intervals drawn for the rate last read. A trace
 names the looks that matter; Scheduler.Loop is proved against it.
 */
module LoopTrace {
  import opened Arithmetic
  import opened Events
  import opened Pacing

  datatype Observation = Observation(clock: int, state: RunState, factor: real, rps: int, size: nat)

  type Environment = nat -> Observation

  predicate InOrder(env: Environment, j: nat, k: nat) {
    env(j).clock <= env(k).clock
  }

  /**
   Rates are positive and random factors are not negative.
   */
  ghost predicate Rated(env: Environment) {
    && (forall j :: env(j).rps > 0)
    && (forall j :: env(j).factor >= 0.0)
  }

  /**
   The clock is positive, monotone and passes every time t by its look number reach(t); from look
   `stopAt` on the state is STOPPING.
   */
  ghost predicate Admissible(env: Environment, reach: int -> nat, stopAt: nat) {
    && Rated(env)
    && (forall j :: env(j).clock > 0)
    && (forall j, k :: j <= k ==> InOrder(env, j, k))
    && (forall t :: env(reach(t)).clock >= t)
    && (forall j :: j >= stopAt ==> env(j).state == STOPPING)
  }

  /** The mean interval for a rate, in whole nanoseconds. */
  function MeanInterval(rps: int): int
    requires rps > 0
  {
    Trunc(1.0 / rps as real * 1000000000.0)
  }

  /** An exponential variate with the given mean is a non-negative factor times that mean. */
  function Interval(factor: real, mean: int): real {
    factor * mean as real
  }

  lemma IntervalIsNatural(factor: real, rps: int)
    requires factor >= 0.0 && rps > 0
    ensures Interval(factor, MeanInterval(rps)) >= 0.0
  {
    var x := 1.0 / rps as real * 1000000000.0;
    assert x >= 0.0;
    TruncError(x);
    ProductIsNatural(factor, MeanInterval(rps) as real);
  }

  lemma ProductIsNatural(x: real, y: real)
    requires x >= 0.0 && y >= 0.0
    ensures x * y >= 0.0
  {
  }

  /** The mean interval is a second divided by the rate, rounded down to whole nanoseconds. */
  lemma MeanIntervalIsSecondOverRate(rps: int)
    requires rps > 0
    ensures 1_000_000_000 - rps < MeanInterval(rps) * rps <= 1_000_000_000
  {
    var x := 1.0 / rps as real * 1000000000.0;
    TruncError(x);
    SecondOverRate(rps as real);
    RoundedDown(x, rps as real, MeanInterval(rps) as real);
    IntegerBounds(MeanInterval(rps), rps);
  }

  lemma SecondOverRate(r: real)
    requires r > 0.0
    ensures 1.0 / r * 1000000000.0 * r == 1000000000.0
  {
    var inverse := 1.0 / r;
    assert inverse * r == 1.0;
    assert inverse * 1000000000.0 * r == 1000000000.0 * (inverse * r);
  }

  lemma IntegerBounds(m: int, rps: int)
    requires 1000000000.0 - rps as real < m as real * rps as real <= 1000000000.0
    ensures 1_000_000_000 - rps < m * rps <= 1_000_000_000
  {
    assert (m * rps) as real == m as real * rps as real;
  }

  lemma RoundedDown(x: real, r: real, m: real)
    requires r > 0.0 && x - 1.0 < m <= x && x * r == 1000000000.0
    ensures 1000000000.0 - r < m * r <= 1000000000.0
  {
    Scaled(m, x, r);
    Scaled(x - 1.0, m, r);
    Distribute(x, 1.0, r);
  }

  lemma Scaled(x: real, y: real, r: real)
    requires x <= y && r > 0.0
    ensures x * r <= y * r
    ensures x < y ==> x * r < y * r
  {
    Distribute(y, x, r);
    ProductIsNatural(y - x, r);
    if x < y {
      ProductIsPositive(y - x, r);
    }
  }

  lemma Distribute(x: real, y: real, r: real)
    ensures (x - y) * r == x * r - y * r
  {
  }

  lemma ProductIsPositive(x: real, y: real)
    requires x > 0.0 && y > 0.0
    ensures x * y > 0.0
  {
  }

  // ---------- What the loop sees ----------

  /** A spin that begins at look `at` ends at the first look by which `ns` have passed. */
  ghost predicate SpinEnds(env: Environment, at: nat, ns: int, end: nat) {
    && at < end && env(end).clock - env(at).clock >= ns
    && forall j :: at < j < end ==> env(j).clock - env(at).clock < ns
  }

  /**
   The looks of one epoch: the first one, and for each pass the one that ends its spin. All
   others follow from these, in the order of the program.
   */
  datatype Trace = Trace(start: nat, ends: seq<nat>) {

    /** The test of the inner loop before pass k. */
    function Test(k: nat): nat
      requires k <= |ends|
    {
      if k == 0 then start + 1 else ends[k - 1] + 4
    }

    /** Where the random factor of interval k is drawn. */
    function FactorLook(k: nat): nat
      requires k <= |ends|
    {
      if k == 0 then start else ends[k - 1] + 1
    }

    /** Where the rate was last read before interval k is drawn. */
    function RateLook(k: nat): nat
      requires k <= |ends| + 1
    {
      if k <= 1 then start else ends[k - 2] + 3
    }

    /** The trace after one more pass, whose spin ends at look `end`. */
    function Then(end: nat): Trace {
      Trace(start, ends + [end])
    }

    /** The trace before its last pass. */
    function Before(): Trace
      requires ends != []
    {
      Trace(start, ends[..|ends| - 1])
    }

    /** The queue sizes seen after each tick. */
    function Sizes(env: Environment): (r: seq<nat>)
      ensures |r| == |ends|
    {
      seq(|ends|, k requires 0 <= k < |ends| => env(ends[k] + 2).size)
    }
  }

  /** Pass k: a test that sees RUNNING, the clock at the loop top, the spin, the clock after it. */
  ghost predicate PassSeen(env: Environment, tr: Trace, ep: Epoch, k: nat)
    requires ep.WellFormed() && |ep.ticks| == |tr.ends| && k < |ep.ticks|
  {
    && env(tr.Test(k)).state == RUNNING
    && ep.ticks[k] == Tick(env(tr.Test(k) + 1).clock, env(tr.Test(k) + 2).clock,
                           env(tr.ends[k]).clock, env(tr.ends[k] + 1).clock)
    && SpinEnds(env, tr.Test(k) + 2, Max(ep.AtWait(k), 0), tr.ends[k])
  }

  /** Interval k is the factor drawn for it times the mean interval of the rate last seen. */
  ghost predicate IntervalSeen(env: Environment, tr: Trace, x: real, k: nat)
    requires k <= |tr.ends|
  {
    && env(tr.RateLook(k)).rps > 0
    && x == Interval(env(tr.FactorLook(k)).factor, MeanInterval(env(tr.RateLook(k)).rps))
  }

  ghost predicate PassesSeen(env: Environment, tr: Trace, ep: Epoch)
    requires ep.WellFormed() && |ep.ticks| == |tr.ends|
  {
    forall k :: 0 <= k < |ep.ticks| ==> PassSeen(env, tr, ep, k)
  }

  ghost predicate IntervalsSeen(env: Environment, tr: Trace, xs: seq<real>)
    requires |xs| == |tr.ends| + 1
  {
    forall k :: 0 <= k < |xs| ==> IntervalSeen(env, tr, xs[k], k)
  }

  /** The epoch is what these looks show: a tick for every test that sees RUNNING, and nothing else. */
  ghost predicate Follows(env: Environment, tr: Trace, ep: Epoch) {
    && ep.WellFormed() && |ep.ticks| == |tr.ends|
    && PassesSeen(env, tr, ep) && IntervalsSeen(env, tr, ep.intervals)
  }

  /** Earlier passes stay as they are when one is added. */
  lemma PassKept(env: Environment, tr: Trace, ep: Epoch, end: nat, t: Tick, x: real, k: nat)
    requires ep.WellFormed() && |ep.ticks| == |tr.ends| && k < |ep.ticks| && x >= 0.0
    requires PassSeen(env, tr, ep, k)
    ensures WithTick(ep, t, x).WellFormed() && PassSeen(env, tr.Then(end), WithTick(ep, t, x), k)
  {
    WithTickKeepsBudgets(ep, t, x, k);
  }

  lemma OneMorePass(env: Environment, tr: Trace, ep: Epoch, end: nat, t: Tick, x: real)
    requires ep.WellFormed() && |ep.ticks| == |tr.ends| && PassesSeen(env, tr, ep) && x >= 0.0
    requires WithTick(ep, t, x).WellFormed() && PassSeen(env, tr.Then(end), WithTick(ep, t, x), |ep.ticks|)
    ensures PassesSeen(env, tr.Then(end), WithTick(ep, t, x))
  {
    forall k | 0 <= k < |ep.ticks| + 1
      ensures PassSeen(env, tr.Then(end), WithTick(ep, t, x), k)
    {
      if k < |ep.ticks| {
        assert PassSeen(env, tr, ep, k);
        PassKept(env, tr, ep, end, t, x, k);
      }
    }
  }

  lemma OneMoreInterval(env: Environment, tr: Trace, xs: seq<real>, end: nat, x: real)
    requires |xs| == |tr.ends| + 1 && IntervalsSeen(env, tr, xs)
    requires env(tr.RateLook(|xs|)).rps > 0
    requires x == Interval(env(end + 1).factor, MeanInterval(env(tr.RateLook(|xs|)).rps))
    ensures IntervalsSeen(env, tr.Then(end), xs + [x])
  {
    forall k | 0 <= k < |xs + [x]|
      ensures IntervalSeen(env, tr.Then(end), (xs + [x])[k], k)
    {
      if k < |xs| {
        assert IntervalSeen(env, tr, xs[k], k);
        assert tr.Then(end).RateLook(k) == tr.RateLook(k) && tr.Then(end).FactorLook(k) == tr.FactorLook(k);
      }
    }
  }

  /** A tick that is late is not delayed further: its spin ends at the first look after it began. */
  lemma LateTickSpinsOnce(env: Environment, reach: int -> nat, stopAt: nat, tr: Trace, ep: Epoch, k: nat)
    requires Admissible(env, reach, stopAt) && Follows(env, tr, ep) && k < |ep.ticks| && ep.AtWait(k) <= 0
    ensures tr.ends[k] == tr.Test(k) + 3
  {
    assert PassSeen(env, tr, ep, k);
    assert InOrder(env, tr.Test(k) + 2, tr.Test(k) + 3);
  }

  // ---------- The rate of an epoch ----------

  /** The sum of the factors drawn for the intervals 0, ..., k, each times a second over the rate. */
  ghost function Schedule(env: Environment, tr: Trace, k: nat): real
    requires Rated(env) && k <= |tr.ends|
  {
    var x := env(tr.FactorLook(k)).factor * 1000000000.0 / env(tr.RateLook(k)).rps as real;
    if k == 0 then x else Schedule(env, tr, k - 1) + x
  }

  function SumOfFactors(env: Environment, tr: Trace, k: nat): real
    requires k <= |tr.ends|
  {
    var x := env(tr.FactorLook(k)).factor;
    if k == 0 then x else SumOfFactors(env, tr, k - 1) + x
  }

  lemma IntervalKeepsRate(env: Environment, tr: Trace, x: real, k: nat)
    requires Rated(env) && k <= |tr.ends| && IntervalSeen(env, tr, x, k)
    ensures
      var factor, rps := env(tr.FactorLook(k)).factor, env(tr.RateLook(k)).rps;
      factor * 1000000000.0 / rps as real - factor <= x <= factor * 1000000000.0 / rps as real
  {
    FactorTimesMean(env(tr.FactorLook(k)).factor, env(tr.RateLook(k)).rps);
  }

  lemma BoundsAddUp(schedule: real, factors: real, drawn: real, ideal: real, factor: real, x: real)
    requires schedule - factors <= drawn <= schedule && ideal - factor <= x <= ideal
    ensures (schedule + ideal) - (factors + factor) <= drawn + x <= schedule + ideal
  {
  }

  lemma FactorTimesMean(factor: real, rps: int)
    requires factor >= 0.0 && rps > 0
    ensures factor * 1000000000.0 / rps as real - factor
            <= factor * MeanInterval(rps) as real <= factor * 1000000000.0 / rps as real
  {
    var ideal, m := 1000000000.0 / rps as real, MeanInterval(rps) as real;
    TruncError(1.0 / rps as real * 1000000000.0);
    assert 1.0 / rps as real * 1000000000.0 == ideal;
    assert ideal - 1.0 <= m <= ideal;
    assert factor * 1000000000.0 / rps as real == factor * ideal;
    ProductIsNatural(factor, ideal - m);
    ProductIsNatural(factor, m - (ideal - 1.0));
  }

  /**
   The intervals of an epoch add up to its factors times a second over the rates it saw, less
   one nanosecond at most for each unit of a factor: the load has the rate asked for.
   */
  lemma {:induction false} EpochKeepsRate(env: Environment, tr: Trace, ep: Epoch, k: nat)
    requires Rated(env) && Follows(env, tr, ep) && k <= |ep.ticks|
    ensures Schedule(env, tr, k) - SumOfFactors(env, tr, k) <= ep.Drawn(k) <= Schedule(env, tr, k)
  {
    IntervalKeepsRate(env, tr, ep.intervals[k], k);
    if k == 0 {
    } else {
      EpochKeepsRate(env, tr, ep, k - 1);
      var factor, rps := env(tr.FactorLook(k)).factor, env(tr.RateLook(k)).rps;
      BoundsAddUp(Schedule(env, tr, k - 1), SumOfFactors(env, tr, k - 1), ep.Drawn(k - 1),
                  factor * 1000000000.0 / rps as real, factor, ep.intervals[k]);
    }
  }

  ghost predicate Paced(ep: Epoch) {
    ep.WellFormed() && ep.Timed()
  }

  // ---------- The epoch of a trace ----------

  /** The clock readings of the next pass, if its spin ends at look `end`. */
  function NextTick(env: Environment, tr: Trace, end: nat): Tick {
    var at := tr.Test(|tr.ends|);
    Tick(env(at + 1).clock, env(at + 2).clock, env(end).clock, env(end + 1).clock)
  }

  /** The interval drawn in that pass. */
  ghost function NextInterval(env: Environment, tr: Trace, end: nat): (x: real)
    requires Rated(env)
    ensures x >= 0.0
  {
    IntervalIsNatural(env(end + 1).factor, env(tr.RateLook(|tr.ends| + 1)).rps);
    Interval(env(end + 1).factor, MeanInterval(env(tr.RateLook(|tr.ends| + 1)).rps))
  }

  /** The epoch that goes through the looks of a trace. */
  ghost function EpochOf(env: Environment, tr: Trace): (ep: Epoch)
    requires Rated(env)
    ensures ep.WellFormed() && |ep.ticks| == |tr.ends|
    decreases |tr.ends|
  {
    if tr.ends == [] then
      IntervalIsNatural(env(tr.start).factor, env(tr.start).rps);
      Epoch([Interval(env(tr.start).factor, MeanInterval(env(tr.start).rps))], [])
    else
      var front, end := tr.Before(), Last(tr.ends);
      WithTick(EpochOf(env, front), NextTick(env, front, end), NextInterval(env, front, end))
  }

  /** The loop's `budget` and `a` at the test that is next. */
  ghost function BudgetOf(env: Environment, tr: Trace): int
    requires Rated(env)
  {
    EpochOf(env, tr).Budget(|tr.ends|)
  }

  function PreviousTick(env: Environment, tr: Trace): int {
    if tr.ends == [] then 0 else env(Last(tr.ends) + 1).clock
  }

  /** How long the next pass spins. */
  ghost function NextWait(env: Environment, tr: Trace): int
    requires Rated(env)
  {
    BudgetOf(env, tr) -
    if tr.ends == [] then 0 else env(tr.Test(|tr.ends|) + 1).clock - PreviousTick(env, tr)
  }

  /** The next test sees RUNNING, and the spin of the pass after it ends at look `end`. */
  ghost predicate CanPass(env: Environment, tr: Trace, end: nat)
    requires Rated(env)
  {
    && env(tr.Test(|tr.ends|)).state == RUNNING
    && SpinEnds(env, tr.Test(|tr.ends|) + 2, Max(NextWait(env, tr), 0), end)
  }

  /** The inner loop goes through these looks. */
  ghost predicate Seen(env: Environment, tr: Trace)
    requires Rated(env)
    decreases |tr.ends|
  {
    tr.ends == [] || (Seen(env, tr.Before()) && CanPass(env, tr.Before(), Last(tr.ends)))
  }

  lemma EpochThen(env: Environment, tr: Trace, end: nat)
    requires Rated(env)
    ensures EpochOf(env, tr.Then(end)) == WithTick(EpochOf(env, tr), NextTick(env, tr, end), NextInterval(env, tr, end))
  {
    assert tr.Then(end).Before() == tr;
  }

  lemma SeenThen(env: Environment, tr: Trace, end: nat)
    requires Rated(env) && Seen(env, tr) && CanPass(env, tr, end)
    ensures Seen(env, tr.Then(end))
  {
    assert tr.Then(end).Before() == tr;
  }

  lemma LastTickOf(env: Environment, tr: Trace)
    requires Rated(env)
    ensures
      var ep := EpochOf(env, tr);
      tr.ends != [] ==> ep.ticks[|ep.ticks| - 1].a == PreviousTick(env, tr)
  {
  }

  /** What AtWait of the epoch with the next pass will be. */
  lemma WaitOf(env: Environment, tr: Trace, t: Tick, x: real)
    requires Rated(env) && t.b == env(tr.Test(|tr.ends|) + 1).clock && x >= 0.0
    ensures
      var ep := EpochOf(env, tr);
      && WithTick(ep, t, x).WellFormed()
      && WithTick(ep, t, x).AtWait(|ep.ticks|) == NextWait(env, tr)
  {
    LastTickOf(env, tr);
    WithTickKeepsBudgets(EpochOf(env, tr), t, x, |tr.ends|);
  }

  lemma BudgetThen(env: Environment, tr: Trace, end: nat)
    requires Rated(env)
    ensures
      var t, ep' := NextTick(env, tr, end), EpochOf(env, tr.Then(end));
      && ep'.AtWait(|tr.ends|) == NextWait(env, tr)
      && BudgetOf(env, tr.Then(end)) ==
         Trunc(NextWait(env, tr) as real + (NextInterval(env, tr, end) - (t.a - t.b) as real))
  {
    EpochThen(env, tr, end);
    WaitOf(env, tr, NextTick(env, tr, end), NextInterval(env, tr, end));
  }

  /** The looks that follow a pass. */
  lemma LooksThen(env: Environment, tr: Trace, end: nat)
    ensures
      var tr' := tr.Then(end);
      && PreviousTick(env, tr') == env(end + 1).clock
      && tr'.RateLook(|tr'.ends| + 1) == end + 3
      && tr'.Test(|tr'.ends|) == end + 4
  {
  }

  /** The test `if (a)` finds out whether there was a pass. */
  lemma WaitIs(env: Environment, tr: Trace, prev: int, left: int)
    requires Rated(env) && prev == PreviousTick(env, tr) && left == BudgetOf(env, tr)
    requires tr.ends != [] ==> env(Last(tr.ends) + 1).clock > 0
    ensures NextWait(env, tr) ==
            if prev != 0 then left - (env(tr.Test(|tr.ends|) + 1).clock - prev) else left
  {
  }

  /** The clock goes forward over a pass. */
  lemma ClockOverPass(env: Environment, reach: int -> nat, stopAt: nat, at: nat, end: nat)
    requires Admissible(env, reach, stopAt) && at + 2 < end
    ensures 0 < env(at).clock <= env(at + 1).clock <= env(at + 2).clock
    ensures env(at + 2).clock <= env(end).clock <= env(end + 1).clock <= env(end + 4).clock
  {
    assert InOrder(env, at, at + 1) && InOrder(env, at + 1, at + 2) && InOrder(env, at + 2, end);
    assert InOrder(env, end, end + 1) && InOrder(env, end + 1, end + 4);
  }

  /** The loop's variables say what the trace says: the next test, the last tick, the budget, the rate. */
  ghost predicate Tracks(env: Environment, tr: Trace, at: nat, a: int, budget: int, rps: int)
    requires Rated(env)
  {
    && at == tr.Test(|tr.ends|)
    && a == PreviousTick(env, tr) && budget == BudgetOf(env, tr)
    && rps == env(tr.RateLook(|tr.ends| + 1)).rps
  }

  /** What one pass of the inner loop computes: the end of its spin, the time after it, the new budget. */
  ghost predicate PassResult(env: Environment, at: nat, prev: int, left: int, rps: int, end: nat, a: int, budget: int)
    requires Rated(env) && rps > 0
  {
    var b := env(at + 1).clock;
    var wait := if prev != 0 then left - (b - prev) else left;
    && SpinEnds(env, at + 2, Max(wait, 0), end)
    && a == env(end + 1).clock
    && budget == Trunc(wait as real + (Interval(env(end + 1).factor, MeanInterval(rps)) - (a - b) as real))
  }

  lemma WaitOfPass(env: Environment, tr: Trace, at: nat, prev: int, left: int, rps: int, end: nat, a: int, budget: int)
    requires Rated(env) && Tracks(env, tr, at, prev, left, rps)
    requires tr.ends != [] ==> env(Last(tr.ends) + 1).clock > 0
    requires PassResult(env, at, prev, left, rps, end, a, budget)
    ensures at + 2 < end && SpinEnds(env, at + 2, Max(NextWait(env, tr), 0), end)
    ensures
      var x := Interval(env(end + 1).factor, MeanInterval(rps));
      a == env(end + 1).clock && budget == Trunc(NextWait(env, tr) as real + (x - (a - env(at + 1).clock) as real))
  {
    WaitIs(env, tr, prev, left);
  }

  /** A pass that computes this goes on with the trace. */
  lemma PassGoesOn(env: Environment, tr: Trace, at: nat, prev: int, left: int, rps: int, end: nat, a: int, budget: int)
    requires Rated(env) && Seen(env, tr) && Tracks(env, tr, at, prev, left, rps) && env(at).state == RUNNING
    requires tr.ends != [] ==> env(Last(tr.ends) + 1).clock > 0
    requires PassResult(env, at, prev, left, rps, end, a, budget)
    ensures Seen(env, tr.Then(end)) && at < end + 4
    ensures Tracks(env, tr.Then(end), end + 4, a, budget, env(end + 3).rps)
  {
    WaitOfPass(env, tr, at, prev, left, rps, end, a, budget);
    SeenThen(env, tr, end);
    TracksThen(env, tr, at, rps, end, a, budget);
  }

  lemma TracksThen(env: Environment, tr: Trace, at: nat, rps: int, end: nat, a: int, budget: int)
    requires Rated(env) && at == tr.Test(|tr.ends|) && rps == env(tr.RateLook(|tr.ends| + 1)).rps
    requires a == env(end + 1).clock
    requires
      var x := Interval(env(end + 1).factor, MeanInterval(rps));
      budget == Trunc(NextWait(env, tr) as real + (x - (a - env(at + 1).clock) as real))
    ensures Tracks(env, tr.Then(end), end + 4, a, budget, env(end + 3).rps)
  {
    LooksThen(env, tr, end);
    BudgetGoesOn(env, tr, at, rps, end, a, budget);
  }

  lemma BudgetGoesOn(env: Environment, tr: Trace, at: nat, rps: int, end: nat, a: int, budget: int)
    requires Rated(env) && at == tr.Test(|tr.ends|) && rps == env(tr.RateLook(|tr.ends| + 1)).rps
    requires a == env(end + 1).clock
    requires
      var x := Interval(env(end + 1).factor, MeanInterval(rps));
      budget == Trunc(NextWait(env, tr) as real + (x - (a - env(at + 1).clock) as real))
    ensures budget == BudgetOf(env, tr.Then(end))
  {
    BudgetThen(env, tr, end);
    assert NextInterval(env, tr, end) == Interval(env(end + 1).factor, MeanInterval(rps));
  }

  lemma TestIsLater(env: Environment, reach: int -> nat, stopAt: nat, tr: Trace)
    requires Admissible(env, reach, stopAt)
    ensures PreviousTick(env, tr) <= env(tr.Test(|tr.ends|)).clock
  {
    if tr.ends != [] {
      assert InOrder(env, Last(tr.ends) + 1, Last(tr.ends) + 4);
    }
  }

  /** Such an epoch is properly paced. */
  lemma {:induction false} SeenIsPaced(env: Environment, reach: int -> nat, stopAt: nat, tr: Trace)
    requires Admissible(env, reach, stopAt) && Seen(env, tr)
    ensures Paced(EpochOf(env, tr))
    decreases |tr.ends|
  {
    if tr.ends == [] {
    } else {
      SeenIsPaced(env, reach, stopAt, tr.Before());
      PacedStep(env, reach, stopAt, tr.Before(), Last(tr.ends));
      BeforeThen(tr);
    }
  }

  lemma PacedStep(env: Environment, reach: int -> nat, stopAt: nat, tr: Trace, end: nat)
    requires Admissible(env, reach, stopAt) && CanPass(env, tr, end) && Paced(EpochOf(env, tr))
    ensures Paced(EpochOf(env, tr.Then(end)))
  {
    TestIsLater(env, reach, stopAt, tr);
    ClockOverPass(env, reach, stopAt, tr.Test(|tr.ends|), end);
    PacedThen(env, tr, end);
  }

  /** And its looks show exactly what happens in it. */
  lemma {:induction false} SeenFollows(env: Environment, tr: Trace)
    requires Rated(env) && Seen(env, tr)
    ensures Follows(env, tr, EpochOf(env, tr))
    decreases |tr.ends|
  {
    if tr.ends == [] {
    } else {
      SeenFollows(env, tr.Before());
      FollowsThen(env, tr.Before(), Last(tr.ends));
      BeforeThen(tr);
    }
  }

  lemma BeforeThen(tr: Trace)
    requires tr.ends != []
    ensures tr.Before().Then(Last(tr.ends)) == tr
  {
  }

  lemma PacedThen(env: Environment, tr: Trace, end: nat)
    requires Rated(env) && CanPass(env, tr, end) && Paced(EpochOf(env, tr))
    requires
      var t := NextTick(env, tr, end);
      PreviousTick(env, tr) <= t.b <= t.start <= t.finish <= t.a
    ensures Paced(EpochOf(env, tr.Then(end)))
  {
    EpochThen(env, tr, end);
    LastTickOf(env, tr);
    StillPaced(EpochOf(env, tr), NextTick(env, tr, end), NextInterval(env, tr, end), NextWait(env, tr));
  }

  lemma StillPaced(ep: Epoch, t: Tick, x: real, wait: int)
    requires Paced(ep) && x >= 0.0
    requires t.b <= t.start <= t.finish <= t.a && t.finish - t.start >= Max(wait, 0)
    requires
      var k := |ep.ticks|;
      && (k > 0 ==> ep.ticks[k - 1].a <= t.b)
      && wait == ep.Budget(k) - if k == 0 then 0 else t.b - ep.ticks[k - 1].a
    ensures Paced(WithTick(ep, t, x))
  {
    WithTickKeepsTimed(ep, t, x);
  }

  lemma PassSeenThen(env: Environment, tr: Trace, ep: Epoch, x: real, end: nat, wait: int)
    requires ep.WellFormed() && |ep.ticks| == |tr.ends| && x >= 0.0
    requires
      var ep' := WithTick(ep, NextTick(env, tr, end), x);
      ep'.WellFormed() && ep'.AtWait(|tr.ends|) == wait
    requires env(tr.Test(|tr.ends|)).state == RUNNING
    requires SpinEnds(env, tr.Test(|tr.ends|) + 2, Max(wait, 0), end)
    ensures PassSeen(env, tr.Then(end), WithTick(ep, NextTick(env, tr, end), x), |tr.ends|)
  {
    TestBefore(tr, end);
    LastPassSeen(env, tr.Then(end), WithTick(ep, NextTick(env, tr, end), x), tr.Test(|tr.ends|), end, wait);
  }

  lemma LastPassSeen(env: Environment, tr: Trace, ep: Epoch, at: nat, end: nat, wait: int)
    requires ep.WellFormed() && |ep.ticks| == |tr.ends| > 0
    requires tr.Test(|tr.ends| - 1) == at && tr.ends[|tr.ends| - 1] == end && ep.AtWait(|tr.ends| - 1) == wait
    requires env(at).state == RUNNING && SpinEnds(env, at + 2, Max(wait, 0), end)
    requires ep.ticks[|tr.ends| - 1] ==
             Tick(env(at + 1).clock, env(at + 2).clock, env(end).clock, env(end + 1).clock)
    ensures PassSeen(env, tr, ep, |tr.ends| - 1)
  {
  }

  lemma TestBefore(tr: Trace, end: nat)
    ensures tr.Then(end).Test(|tr.ends|) == tr.Test(|tr.ends|) && tr.Then(end).ends[|tr.ends|] == end
  {
  }

  lemma FollowsThen(env: Environment, tr: Trace, end: nat)
    requires Rated(env) && CanPass(env, tr, end) && Follows(env, tr, EpochOf(env, tr))
    ensures Follows(env, tr.Then(end), EpochOf(env, tr.Then(end)))
  {
    var ep, t, x := EpochOf(env, tr), NextTick(env, tr, end), NextInterval(env, tr, end);
    EpochThen(env, tr, end);
    WaitOf(env, tr, t, x);
    PassSeenThen(env, tr, ep, x, end, NextWait(env, tr));
    OneMorePass(env, tr, ep, end, t, x);
    OneMoreInterval(env, tr, ep.intervals, end, x);
  }

  /** The looks of the PAUSED loop: each sees PAUSED and is followed by a microsecond's spin, except the last. */
  ghost predicate PauseSeen(env: Environment, start: nat, looks: seq<nat>) {
    && looks != [] && looks[0] == start && env(Last(looks)).state != PAUSED
    && forall k :: 0 <= k < |looks| - 1 ==> PausedAt(env, looks, k)
  }

  ghost predicate PausedAt(env: Environment, looks: seq<nat>, k: nat)
    requires k + 1 < |looks|
  {
    && env(looks[k]).state == PAUSED && looks[k + 1] > 0
    && SpinEnds(env, looks[k] + 1, 1000, looks[k + 1] - 1)
  }

  /** The look after the PAUSED loop and the test that follows it. */
  function LookAfter(looks: seq<nat>): nat {
    if looks == [] then 0 else Last(looks) + 2
  }

  /**
   Epoch e is paced and follows its trace. After it come a test that does not see RUNNING, the
   PAUSED loop, and a test that sees STOPPING exactly if the epoch is the last and the loop has
   ended; otherwise the next epoch begins.
   */
  ghost predicate EpochSeen(env: Environment, epochs: seq<Epoch>, traces: seq<Trace>, pauses: seq<seq<nat>>,
                            ended: bool, e: nat)
    requires e < |epochs| == |traces| == |pauses|
  {
    var closing := traces[e].Test(|traces[e].ends|);
    && Paced(epochs[e]) && Follows(env, traces[e], epochs[e])
    && traces[e].start == (if e == 0 then 0 else LookAfter(pauses[e - 1]))
    && env(closing).state != RUNNING
    && PauseSeen(env, closing + 1, pauses[e])
    && (env(Last(pauses[e]) + 1).state == STOPPING <==> ended && e == |epochs| - 1)
  }

  ghost predicate LoopSeen(env: Environment, epochs: seq<Epoch>, traces: seq<Trace>, pauses: seq<seq<nat>>, ended: bool) {
    && |epochs| == |traces| == |pauses|
    && forall e :: 0 <= e < |epochs| ==> EpochSeen(env, epochs, traces, pauses, ended, e)
  }

  lemma OneMoreEpoch(env: Environment, epochs: seq<Epoch>, traces: seq<Trace>, pauses: seq<seq<nat>>,
                     ep: Epoch, tr: Trace, looks: seq<nat>, ended: bool)
    requires LoopSeen(env, epochs, traces, pauses, false)
    requires Paced(ep) && Follows(env, tr, ep)
    requires tr.start == if pauses == [] then 0 else LookAfter(Last(pauses))
    requires env(tr.Test(|tr.ends|)).state != RUNNING && PauseSeen(env, tr.Test(|tr.ends|) + 1, looks)
    requires env(Last(looks) + 1).state == STOPPING <==> ended
    ensures LoopSeen(env, epochs + [ep], traces + [tr], pauses + [looks], ended)
  {
    forall e | 0 <= e < |epochs + [ep]|
      ensures EpochSeen(env, epochs + [ep], traces + [tr], pauses + [looks], ended, e)
    {
      if e < |epochs| {
        assert EpochSeen(env, epochs, traces, pauses, false, e);
      }
    }
  }
}
