/**
 The sleep budget of Scheduler::loop (Scheduler.cpp). Times are nanoseconds of a monotone
 clock; intervals are arbitrary non-negative reals, so every rate and every change of rate
 is covered; assigning a double to the int64_t budget truncates toward zero.
 */
module Pacing {
  import opened Arithmetic

  /** The four clock readings of one pass of the inner loop: loop top, spin start, spin end, after the spin. */
  datatype Tick = Tick(b: int, start: int, finish: int, a: int)

  /** One run of the inner loop: `intervals[0]` is drawn before it and `intervals[k+1]` in pass k. */
  datatype Epoch = Epoch(intervals: seq<real>, ticks: seq<Tick>) {

    predicate WellFormed() {
      |intervals| == |ticks| + 1 && forall k :: 0 <= k < |intervals| ==> intervals[k] >= 0.0
    }

    /** The budget at the loop test before pass k. */
    function Budget(k: nat): int
      requires WellFormed() && k <= |ticks|
      decreases k, 0
    {
      if k == 0 then Trunc(intervals[0])
      else Trunc(AtWait(k - 1) as real + (intervals[k] - (ticks[k - 1].a - ticks[k - 1].b) as real))
    }

    /** The budget when pass k starts to spin: the time spent since the previous spin is taken off. */
    function AtWait(k: nat): int
      requires WellFormed() && k < |ticks|
      decreases k, 1
    {
      if k == 0 then Budget(0) else Budget(k) - (ticks[k].b - ticks[k - 1].a)
    }

    /** The sum of the intervals 0, ..., k. */
    function Drawn(k: nat): real
      requires WellFormed() && k <= |ticks|
    {
      if k == 0 then intervals[0] else Drawn(k - 1) + intervals[k]
    }

    /** A monotone clock, and spins that last at least as long as the budget says. */
    ghost predicate Timed()
      requires WellFormed()
    {
      && (forall k :: 0 <= k < |ticks| ==> Spun(k))
      && (forall k :: 0 < k < |ticks| ==> ticks[k - 1].a <= ticks[k].b)
    }

    ghost predicate Spun(k: nat)
      requires WellFormed() && k < |ticks|
    {
      var t := ticks[k];
      t.b <= t.start <= t.finish <= t.a && t.finish - t.start >= Max(AtWait(k), 0)
    }

    ghost predicate IntegerIntervals() {
      forall k :: 0 <= k < |intervals| ==> intervals[k] == intervals[k].Floor as real
    }

    /** When tick k is due: the epoch's first loop top plus the intervals drawn up to k. */
    function Due(k: nat): real
      requires WellFormed() && k < |ticks|
    {
      ticks[0].b as real + Drawn(k)
    }
  }

  function RealMax(x: real, y: real): real {
    if x < y then y else x
  }

  /** The conversion of a double to an int64_t. */
  function Trunc(x: real): int {
    if x >= 0.0 then x.Floor else -((-x).Floor)
  }

  /** Truncation moves a value toward zero by less than one, and not at all if it is an integer. */
  lemma TruncError(x: real)
    ensures -1.0 < Trunc(x) as real - x < 1.0
    ensures x >= 0.0 ==> 0 <= Trunc(x) && Trunc(x) as real <= x
    ensures x <= 0.0 ==> Trunc(x) <= 0 && Trunc(x) as real >= x
    ensures x == x.Floor as real ==> Trunc(x) as real == x
  {
    if x < 0.0 && x == x.Floor as real {
      assert -x == (-x.Floor) as real;
    }
  }

  /** What the budget should be when pass k starts to spin: time due minus time elapsed. */
  function Remaining(ep: Epoch, k: nat): real
    requires ep.WellFormed() && k < |ep.ticks|
  {
    ep.Due(k) - ep.ticks[k].b as real
  }

  /**
   The per-pass updates telescope: the budget is the sum of all intervals drawn minus the
   time elapsed since the epoch started, up to less than one nanosecond for each of the
   k+1 assignments of a double made so far.
   */
  lemma {:induction false} BudgetTelescopes(ep: Epoch, k: nat)
    requires ep.WellFormed() && k < |ep.ticks|
    ensures -(k + 1) as real < ep.AtWait(k) as real - Remaining(ep, k) < (k + 1) as real
  {
    if k == 0 {
      TruncError(ep.intervals[0]);
    } else {
      BudgetTelescopes(ep, k - 1);
      var p := ep.ticks[k - 1];
      TruncError(ep.AtWait(k - 1) as real + (ep.intervals[k] - (p.a - p.b) as real));
    }
  }

  /** With integer intervals nothing is truncated and the budget telescopes exactly. */
  lemma {:induction false} BudgetTelescopesExactly(ep: Epoch, k: nat)
    requires ep.WellFormed() && k < |ep.ticks| && ep.IntegerIntervals()
    ensures ep.AtWait(k) as real == Remaining(ep, k)
  {
    if k == 0 {
      TruncError(ep.intervals[0]);
    } else {
      BudgetTelescopesExactly(ep, k - 1);
      var p := ep.ticks[k - 1];
      var x := ep.AtWait(k - 1) as real + (ep.intervals[k] - (p.a - p.b) as real);
      assert x == (ep.AtWait(k - 1) + (ep.intervals[k].Floor - (p.a - p.b))) as real;
      TruncError(x);
    }
  }

  /** The same law after a pass: all intervals drawn minus the time since the epoch started. */
  lemma BudgetAfterPass(ep: Epoch, k: nat)
    requires ep.WellFormed() && k < |ep.ticks|
    ensures
      var exact := ep.Drawn(k + 1) - (ep.ticks[k].a - ep.ticks[0].b) as real;
      && -(k + 2) as real < ep.Budget(k + 1) as real - exact < (k + 2) as real
      && (ep.IntegerIntervals() ==> ep.Budget(k + 1) as real == exact)
  {
    var t := ep.ticks[k];
    var x := ep.AtWait(k) as real + (ep.intervals[k + 1] - (t.a - t.b) as real);
    BudgetTelescopes(ep, k);
    TruncError(x);
    if ep.IntegerIntervals() {
      BudgetTelescopesExactly(ep, k);
      assert x == (ep.AtWait(k) + (ep.intervals[k + 1].Floor - (t.a - t.b))) as real;
    }
  }

  /** Credit never accumulates: after a pass the budget is at most the interval just drawn. */
  lemma NoCredit(ep: Epoch, k: nat)
    requires ep.WellFormed() && k < |ep.ticks| && ep.Spun(k)
    ensures ep.Budget(k + 1) as real <= ep.intervals[k + 1]
  {
    var t := ep.ticks[k];
    TruncError(ep.AtWait(k) as real + (ep.intervals[k + 1] - (t.a - t.b) as real));
  }

  /**
   No tick leaves early: tick k leaves after its loop top and less than k+1 ns before it
   is due; with integer intervals it leaves at max(loop top, due time) plus an overshoot
   that is exactly the time lost around and inside the spin.
   */
  lemma NeverEarly(ep: Epoch, k: nat)
    requires ep.WellFormed() && k < |ep.ticks| && ep.Spun(k)
    ensures ep.ticks[k].a >= ep.ticks[k].b
    ensures ep.ticks[k].a as real > ep.Due(k) - (k + 1) as real
    ensures
      var t := ep.ticks[k];
      var overshoot := (t.a - t.b) - Max(ep.AtWait(k), 0);
      && overshoot >= 0
      && (ep.IntegerIntervals() ==>
            t.a as real == RealMax(t.b as real, ep.Due(k)) + overshoot as real)
  {
    BudgetTelescopes(ep, k);
    if ep.IntegerIntervals() {
      BudgetTelescopesExactly(ep, k);
    }
  }

  /** Lateness is carried forward: a tick whose due time passed k+1 ns before its loop top is not delayed. */
  lemma LateTickIsNotDelayed(ep: Epoch, k: nat)
    requires ep.WellFormed() && k < |ep.ticks|
    requires ep.Due(k) + (k + 1) as real <= ep.ticks[k].b as real
    ensures ep.AtWait(k) < 0
  {
    BudgetTelescopes(ep, k);
  }

  /** Ticks that left by time `t`, counted from the front. */
  function LeftBy(ep: Epoch, t: int, m: nat): nat
    requires m <= |ep.ticks|
  {
    if m == 0 then 0 else LeftBy(ep, t, m - 1) + if ep.ticks[m - 1].a <= t then 1 else 0
  }

  /** Ticks whose due time, with the truncation allowance, is before time `t`. */
  function DueBy(ep: Epoch, t: int, m: nat): nat
    requires ep.WellFormed() && m <= |ep.ticks|
  {
    if m == 0 then 0
    else DueBy(ep, t, m - 1) + if ep.Due(m - 1) < (t + m) as real then 1 else 0
  }

  /** The offered load never runs ahead of the drawn schedule, at any time of an epoch. */
  lemma {:induction false} LoadNeverRunsAhead(ep: Epoch, t: int, m: nat)
    requires ep.WellFormed() && m <= |ep.ticks| && ep.Timed()
    ensures LeftBy(ep, t, m) <= DueBy(ep, t, m)
  {
    if m == 0 {
    } else {
      LoadNeverRunsAhead(ep, t, m - 1);
      NeverEarly(ep, m - 1);
    }
  }

  // ---------- Extending an epoch by one pass ----------

  function WithTick(ep: Epoch, t: Tick, x: real): Epoch {
    Epoch(ep.intervals + [x], ep.ticks + [t])
  }

  lemma {:induction false} WithTickKeepsBudgets(ep: Epoch, t: Tick, x: real, k: nat)
    requires ep.WellFormed() && x >= 0.0 && k <= |ep.ticks|
    ensures WithTick(ep, t, x).WellFormed()
    ensures WithTick(ep, t, x).Budget(k) == ep.Budget(k)
    ensures k < |ep.ticks| ==> WithTick(ep, t, x).AtWait(k) == ep.AtWait(k)
  {
    if k == 0 {
    } else {
      WithTickKeepsBudgets(ep, t, x, k - 1);
    }
  }

  lemma WithTickKeepsTimed(ep: Epoch, t: Tick, x: real)
    requires ep.WellFormed() && ep.Timed() && x >= 0.0
    requires
      var k := |ep.ticks|;
      var wait := if k == 0 then ep.Budget(0) else ep.Budget(k) - (t.b - ep.ticks[k - 1].a);
      && t.b <= t.start <= t.finish <= t.a
      && t.finish - t.start >= Max(wait, 0)
      && (k > 0 ==> ep.ticks[k - 1].a <= t.b)
    ensures WithTick(ep, t, x).WellFormed() && WithTick(ep, t, x).Timed()
  {
    var ep' := WithTick(ep, t, x);
    forall k | 0 <= k < |ep'.ticks|
      ensures ep'.WellFormed() && ep'.Spun(k)
    {
      WithTickKeepsBudgets(ep, t, x, k);
      if k < |ep.ticks| {
        assert ep.Spun(k);
      }
    }
  }
}
