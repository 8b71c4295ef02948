/**
 Scheduler.cpp in its own form. `loop` runs against an environment: what its j-th look at the
 outside world sees, which may be anything a real run could show it.
 */
module SchedulerThread {
  import opened Arithmetic
  import opened Events
  import opened Dealing
  import opened Pacing
  import opened LoopTrace
  import Overload

  /** The ticks dealt in each epoch. */
  function Counts(epochs: seq<Epoch>): (r: seq<nat>)
    ensures |r| == |epochs|
  {
    seq(|epochs|, e requires 0 <= e < |epochs| => |epochs[e].ticks|)
  }

  /** Each queue has got the same event at its end. */
  ghost predicate PutToAll(before: seq<seq<Event>>, after: seq<seq<Event>>, e: Event) {
    |after| == |before| && forall i :: 0 <= i < |before| ==> after[i] == before[i] + [e]
  }

  /** Each queue has got its share of `k` ticks at its end. */
  ghost predicate DealtTo(before: seq<seq<Event>>, after: seq<seq<Event>>, k: nat) {
    |after| == |before| > 0 &&
    forall i :: 0 <= i < |before| ==> after[i] == before[i] + Sends(Dealt(k, |before|, i))
  }

  lemma DealOneMore(before: seq<seq<Event>>, after: seq<seq<Event>>, k: nat, next: nat)
    requires DealtTo(before, after, k) && next == Pointer(k, |before|) < |before|
    ensures DealtTo(before, after[next := after[next] + [SEND_EVENT]], k + 1)
  {
    var n := |before|;
    forall i | 0 <= i < n
      ensures after[next := after[next] + [SEND_EVENT]][i] == before[i] + Sends(Dealt(k + 1, n, i))
    {
      if i == next {
        assert Sends(Dealt(k, n, i) + 1) == Sends(Dealt(k, n, i)) + [SEND_EVENT];
      }
    }
  }

  /** The values with numbers t that go to queue `i`. */
  function DealtValues(seen: seq<nat>, n: nat, i: nat): seq<nat>
    requires n > 0
  {
    if seen == [] then []
    else
      var l := |seen| - 1;
      DealtValues(seen[..l], n, i) + if Pointer(l, n) == i then [seen[l]] else []
  }

  /** The overload test of each queue has seen the sizes that followed its own ticks. */
  ghost predicate SizesDealt(before: seq<seq<nat>>, after: seq<seq<nat>>, seen: seq<nat>) {
    |after| == |before| > 0 &&
    forall i :: 0 <= i < |before| ==> after[i] == before[i] + DealtValues(seen, |before|, i)
  }

  lemma DealOneSize(before: seq<seq<nat>>, after: seq<seq<nat>>, seen: seq<nat>, next: nat, size: nat)
    requires SizesDealt(before, after, seen) && next == Pointer(|seen|, |before|) < |before|
    ensures SizesDealt(before, after[next := after[next] + [size]], seen + [size])
  {
    assert (seen + [size])[..|seen|] == seen;
  }

  lemma SizesOfPass(env: Environment, tr: Trace, end: nat)
    ensures tr.Then(end).Sizes(env) == tr.Sizes(env) + [env(end + 2).size]
  {
  }

  /** The sizes seen by the test of queue `i` over several epochs. */
  function AllSizes(env: Environment, traces: seq<Trace>, n: nat, i: nat): seq<nat>
    requires n > 0
  {
    if traces == [] then []
    else AllSizes(env, traces[..|traces| - 1], n, i) + DealtValues(Last(traces).Sizes(env), n, i)
  }

  ghost predicate AllSizesDealt(env: Environment, before: seq<seq<nat>>, after: seq<seq<nat>>, traces: seq<Trace>) {
    |after| == |before| > 0 &&
    forall i :: 0 <= i < |before| ==> after[i] == before[i] + AllSizes(env, traces, |before|, i)
  }

  lemma SizesOfEpoch(env: Environment, s0: seq<seq<nat>>, s1: seq<seq<nat>>, s2: seq<seq<nat>>,
                     traces: seq<Trace>, tr: Trace)
    requires AllSizesDealt(env, s0, s1, traces) && SizesDealt(s1, s2, tr.Sizes(env))
    ensures AllSizesDealt(env, s0, s2, traces + [tr])
  {
    assert (traces + [tr])[..|traces|] == traces;
  }

  /** Each queue has got everything of the given epochs. */
  ghost predicate EpochsDealt(before: seq<seq<Event>>, after: seq<seq<Event>>, counts: seq<nat>) {
    |after| == |before| > 0 &&
    forall i :: 0 <= i < |before| ==> after[i] == before[i] + Dealings(counts, |before|, i)
  }

  lemma DealEpoch(q0: seq<seq<Event>>, q1: seq<seq<Event>>, q2: seq<seq<Event>>, q3: seq<seq<Event>>,
                  counts: seq<nat>, k: nat)
    requires EpochsDealt(q0, q1, counts) && PutToAll(q1, q2, RESET_EVENT) && DealtTo(q2, q3, k)
    ensures EpochsDealt(q0, q3, counts + [k])
  {
    var n := |q0|;
    forall i | 0 <= i < n
      ensures q3[i] == q0[i] + Dealings(counts + [k], n, i)
    {
      var shares := Shares(counts + [k], n, i);
      assert shares[..|counts|] == Shares(counts, n, i);
      assert q3[i] == q0[i] + Dealings(counts, n, i) + [RESET_EVENT] + Sends(Dealt(k, n, i));
    }
  }

  class Scheduler {
    const loggingThreshold: nat
    const waitForRunnerReady: bool
    var state: RunState
    var next: nat
    var rps: int
    var maxOutstanding: int
    var logged: seq<nat>
    var queues: seq<seq<Event>>
    ghost var sizes: seq<seq<nat>>   // per queue, the sizes seen by the overload test

    ghost predicate Valid()
      reads this
    {
      && |queues| == |logged| == |sizes| > 0
      && (forall i :: 0 <= i < |logged| ==>
            logged[i] == Overload.ObserveAll(loggingThreshold, sizes[i]).factor)
    }

    constructor (rps: int, workers: nat, maxOutstanding: int, loggingThreshold: nat, waitForRunnerReady: bool)
      requires workers > 0
      ensures Valid() && |queues| == workers && (forall i :: 0 <= i < workers ==> queues[i] == [])
      ensures forall i :: 0 <= i < workers ==> logged[i] == 1 && sizes[i] == []
      ensures state == (if waitForRunnerReady then PAUSED else RUNNING) && next == 0
      ensures this.rps == rps && this.maxOutstanding == ToUint32(maxOutstanding)
      ensures this.loggingThreshold == loggingThreshold && this.waitForRunnerReady == waitForRunnerReady
    {
      this.loggingThreshold, this.waitForRunnerReady := loggingThreshold, waitForRunnerReady;
      this.rps, this.maxOutstanding := rps, ToUint32(maxOutstanding);
      state := if waitForRunnerReady then PAUSED else RUNNING;
      next := 0;
      logged := seq(workers, _ => 1);
      queues := seq(workers, _ => []);
      sizes := seq(workers, _ => []);
    }

    // ---------- Control ----------

    method Pause()
      modifies this`state
      ensures state == if old(state) == RUNNING then PAUSED else old(state)
    {
      if state == RUNNING {
        state := PAUSED;
      }
    }

    /** Success means running now, also if the scheduler was running already. */
    method Resume() returns (running: bool)
      modifies this`state
      ensures state == if old(state) == PAUSED then RUNNING else old(state)
      ensures running <==> old(state) != STOPPING
    {
      if state == PAUSED {
        state := RUNNING;
      }
      running := state == RUNNING;
    }

    method Stop()
      modifies this`state
      ensures state == STOPPING
    {
      state := STOPPING;
    }

    /** Takes effect on the loop at its next comparison of rates. */
    method SetRps(rps: int)
      requires IsInt32(rps)
      modifies this`rps
      ensures this.rps == ToUint32(rps) && ToInt32(this.rps) == rps
    {
      LimitRoundTrip(rps);
      this.rps := ToUint32(rps);
    }

    method MessageAllWorkers(e: Event)
      requires Valid()
      modifies this`queues
      ensures Valid() && PutToAll(old(queues), queues, e)
    {
      var i := 0;
      while i < |queues|
        invariant i <= |queues| == |old(queues)|
        invariant forall k :: 0 <= k < i ==> queues[k] == old(queues)[k] + [e]
        invariant forall k :: i <= k < |queues| ==> queues[k] == old(queues)[k]
      {
        queues := queues[i := queues[i] + [e]];
        i := i + 1;
      }
    }

    /** `aborted` is the failing CHECK: with --wait_for_runner_ready the scheduler must be PAUSED. */
    method SetPhase(name: string) returns (aborted: bool)
      requires Valid()
      modifies this`queues
      ensures Valid() && (aborted <==> waitForRunnerReady && state != PAUSED)
      ensures if aborted then queues == old(queues)
              else PutToAll(old(queues), queues, Event(SET_PHASE, Str(name)))
    {
      aborted := waitForRunnerReady && state != PAUSED;
      if !aborted {
        MessageAllWorkers(Event(SET_PHASE, Str(name)));
      }
    }

    /** What the workers will read back is the limit that was asked for, negative ones included. */
    method SetMaxOutstandingRequests(value: int)
      requires Valid() && IsInt32(value)
      modifies this`queues, this`maxOutstanding
      ensures Valid() && ToInt32(maxOutstanding) == value
      ensures PutToAll(old(queues), queues, Event(SET_MAX_OUTSTANDING, Int(maxOutstanding)))
    {
      LimitRoundTrip(value);
      maxOutstanding := ToUint32(value);
      MessageAllWorkers(Event(SET_MAX_OUTSTANDING, Int(maxOutstanding)));
    }

    // ---------- The loop ----------

    /** waitNs: spin until `ns` have passed since the first look at the clock. */
    method WaitNs(env: Environment, ghost reach: int -> nat, ghost stopAt: nat, at: nat, ns: int)
        returns (end: nat)
      requires Admissible(env, reach, stopAt)
      ensures SpinEnds(env, at, ns, end)
    {
      var start := env(at).clock;
      end := at + 1;
      while env(end).clock - start < ns
        invariant end > at
        invariant forall j :: at < j < end ==> env(j).clock - start < ns
        decreases reach(start + ns) - end
      {
        assert env(reach(start + ns)).clock >= start + ns;
        assert end >= reach(start + ns) ==> InOrder(env, reach(start + ns), end);
        end := end + 1;
      }
    }

    /** Scheduler.cpp lines 174-183: put the tick, compare the queue's size, move on. */
    method PutTick(size: nat)
      requires Valid() && next < |queues|
      modifies this`queues, this`logged, this`sizes, this`next
      ensures Valid() && |queues| == |old(queues)|
      ensures queues == old(queues)[old(next) := old(queues)[old(next)] + [SEND_EVENT]]
      ensures sizes == old(sizes)[old(next) := old(sizes)[old(next)] + [size]]
      ensures next == if old(next) + 1 == |queues| then 0 else old(next) + 1
    {
      queues := queues[next := queues[next] + [SEND_EVENT]];
      Overload.ObserveOneMore(loggingThreshold, sizes[next], size);
      sizes := sizes[next := sizes[next] + [size]];
      if Overload.Exceeds(size, loggingThreshold, logged[next]) {
        logged := logged[next := Overload.Twice(logged[next])];
      }
      next := next + 1;
      if next == |queues| {
        next := 0;
      }
    }

    /**
     Scheduler.cpp lines 164-173: one pass of the inner loop up to the tick. `prev` is the time of the
     previous tick, or 0; `look` is where the environment is read next.
     */
    method Pace(env: Environment, ghost reach: int -> nat, ghost stopAt: nat, at: nat,
                prev: int, left: int, ghost rps: int, mean: int)
        returns (end: nat, a: int, budget: int)
      requires Admissible(env, reach, stopAt) && rps > 0 && mean == MeanInterval(rps)
      ensures PassResult(env, at, prev, left, rps, end, a, budget)
    {
      var b := env(at + 1).clock;
      budget := left;
      if prev != 0 {
        budget := budget - (b - prev);
      }
      end := WaitNs(env, reach, stopAt, at + 2, Max(budget, 0));
      a := env(end + 1).clock;
      budget := Trunc(budget as real + (Interval(env(end + 1).factor, mean) - (a - b) as real));
    }

    /** Scheduler.cpp lines 160-162: the first interval of an epoch. */
    method FirstDraw(env: Environment, at: nat) returns (mean: int, budget: int)
      requires Rated(env)
      ensures mean == MeanInterval(env(at).rps) && budget == BudgetOf(env, Trace(at, []))
    {
      mean := MeanInterval(env(at).rps);
      budget := Trunc(Interval(env(at).factor, mean));
    }

    /** Scheduler.cpp lines 184-187: the mean interval follows the rate. */
    method FollowRate(rps: int, mean: int, seen: int) returns (rps': int, mean': int)
      requires rps > 0 && seen > 0 && mean == MeanInterval(rps)
      ensures rps' == seen && mean' == MeanInterval(seen)
    {
      rps', mean' := rps, mean;
      if rps != seen {
        rps', mean' := seen, MeanInterval(seen);
      }
    }

    /** The queues hold the ticks of the trace, and the overload test has seen their sizes. */
    ghost predicate HasDealt(env: Environment, tr: Trace, reset: seq<seq<Event>>, before: seq<seq<nat>>)
      reads this
    {
      && Valid() && DealtTo(reset, queues, |tr.ends|) && SizesDealt(before, sizes, tr.Sizes(env))
      && next == Pointer(|tr.ends|, |queues|) < |queues|
    }

    /** Scheduler.cpp lines 174-183: the tick of a pass. */
    method DealTick(env: Environment, ghost tr: Trace, end: nat,
                    ghost reset: seq<seq<Event>>, ghost before: seq<seq<nat>>)
      requires HasDealt(env, tr, reset, before)
      modifies this`queues, this`logged, this`sizes, this`next
      ensures HasDealt(env, tr.Then(end), reset, before)
    {
      DealOneMore(reset, queues, |tr.ends|, next);
      DealOneSize(before, sizes, tr.Sizes(env), next, env(end + 2).size);
      PointerInRange(|tr.ends| + 1, |queues|);
      SizesOfPass(env, tr, end);
      PutTick(env(end + 2).size);
    }

    /** Scheduler.cpp lines 164-187: one pass of the inner loop, after the test at look `at`. */
    method Pass(env: Environment, ghost reach: int -> nat, ghost stopAt: nat, at: nat, prev: int, left: int,
                rps: int, mean: int, ghost tr: Trace, ghost reset: seq<seq<Event>>, ghost before: seq<seq<nat>>)
        returns (end: nat, a: int, budget: int, rps': int, mean': int)
      requires Admissible(env, reach, stopAt) && Seen(env, tr) && HasDealt(env, tr, reset, before)
      requires Tracks(env, tr, at, prev, left, rps) && mean == MeanInterval(rps) && env(at).state == RUNNING
      modifies this`queues, this`logged, this`sizes, this`next
      ensures Seen(env, tr.Then(end)) && HasDealt(env, tr.Then(end), reset, before)
      ensures at < end + 4 && Tracks(env, tr.Then(end), end + 4, a, budget, rps')
      ensures rps' > 0 && mean' == MeanInterval(rps')
    {
      end, a, budget := Pace(env, reach, stopAt, at, prev, left, rps, mean);
      PassGoesOn(env, tr, at, prev, left, rps, end, a, budget);
      DealTick(env, tr, end, reset, before);
      rps', mean' := FollowRate(rps, mean, env(end + 3).rps);
    }

    /**
     Scheduler.cpp lines 158-188: one epoch, from its RESETs to the first look that does not see
     RUNNING. Every test before it sees RUNNING and is followed by a tick.
     */
    method RunEpoch(env: Environment, ghost reach: int -> nat, ghost stopAt: nat, start: nat)
        returns (at: nat, ghost ep: Epoch, ghost tr: Trace)
      requires Valid() && Admissible(env, reach, stopAt)
      modifies this`queues, this`logged, this`sizes, this`next
      ensures Valid() && Paced(ep) && Follows(env, tr, ep) && tr.start == start
      ensures start < at == tr.Test(|tr.ends|) && env(at).state != RUNNING
      ensures |queues| == |old(queues)|
      ensures exists reset :: PutToAll(old(queues), reset, RESET_EVENT) && DealtTo(reset, queues, |ep.ticks|)
      ensures next == Pointer(|ep.ticks|, |queues|)
      ensures SizesDealt(old(sizes), sizes, tr.Sizes(env))
    {
      MessageAllWorkers(RESET_EVENT);
      ghost var reset := queues;
      next := 0;
      var a, rps := 0, env(start).rps;
      var mean, budget := FirstDraw(env, start);
      at, tr := start + 1, Trace(start, []);
      while env(at).state == RUNNING
        invariant HasDealt(env, tr, reset, old(sizes))
        invariant start < at && Seen(env, tr) && tr.start == start
        invariant Tracks(env, tr, at, a, budget, rps) && rps > 0 && mean == MeanInterval(rps)
        decreases stopAt - at
      {
        var end;
        end, a, budget, rps, mean :=
          Pass(env, reach, stopAt, at, a, budget, rps, mean, tr, reset, old(sizes));
        at, tr := end + 4, tr.Then(end);
      }
      ep := EpochOf(env, tr);
      SeenIsPaced(env, reach, stopAt, tr);
      SeenFollows(env, tr);
    }

    /** Scheduler.cpp lines 189-190: looks every microsecond until one does not see PAUSED. */
    method WaitWhilePaused(env: Environment, ghost reach: int -> nat, ghost stopAt: nat, start: nat)
        returns (at: nat, ghost looks: seq<nat>)
      requires Admissible(env, reach, stopAt)
      ensures PauseSeen(env, start, looks) && start <= at == Last(looks)
    {
      at, looks := start, [start];
      while env(at).state == PAUSED
        invariant start <= at && looks != [] && looks[0] == start && at == Last(looks)
        invariant forall k :: 0 <= k < |looks| - 1 ==> PausedAt(env, looks, k)
        decreases stopAt - at
      {
        var end := WaitNs(env, reach, stopAt, at + 1, 1000);
        ghost var before := looks;
        at, looks := end + 1, looks + [end + 1];
        forall k | 0 <= k < |looks| - 1
          ensures PausedAt(env, looks, k)
        {
          if k < |before| - 1 {
            assert PausedAt(env, before, k);
          }
        }
      }
    }

    /**
     Scheduler::loop. It ends exactly when the test after an epoch sees STOPPING; every queue
     has then got exactly a RESET and its round-robin share of the ticks for every epoch, and
     one STOP; in every epoch each test that sees RUNNING is followed by a tick, paced by the
     rate last seen, and no tick left early.
     */
    method Loop(env: Environment, ghost reach: int -> nat, ghost stopAt: nat)
        returns (ghost epochs: seq<Epoch>, ghost traces: seq<Trace>, ghost pauses: seq<seq<nat>>)
      requires Valid() && Admissible(env, reach, stopAt)
      modifies this`queues, this`logged, this`sizes, this`next
      ensures Valid() && |queues| == |old(queues)| && |epochs| == |traces| == |pauses| >= 1
      ensures forall i :: 0 <= i < |queues| ==>
                queues[i] == old(queues)[i] + Dealings(Counts(epochs), |queues|, i) + [STOP_EVENT]
      ensures AllSizesDealt(env, old(sizes), sizes, traces)
      ensures LoopSeen(env, epochs, traces, pauses, true)
    {
      var at, going := 0, true;
      epochs, traces, pauses := [], [], [];
      forall i | 0 <= i < |queues|
        ensures queues[i] == queues[i] + Dealings(Counts(epochs), |queues|, i)
      {
        assert Counts(epochs) == [] && Shares([], |queues|, i) == [];
      }
      while going
        invariant Valid() && EpochsDealt(old(queues), queues, Counts(epochs))
        invariant AllSizesDealt(env, old(sizes), sizes, traces)
        invariant LoopSeen(env, epochs, traces, pauses, !going) && (going || |epochs| >= 1)
        invariant at == if pauses == [] then 0 else LookAfter(Last(pauses))
        decreases going, stopAt - at
      {
        ghost var before, sizesBefore := queues, sizes;
        ghost var ep, tr, looks;
        at, ep, tr := RunEpoch(env, reach, stopAt, at);
        ghost var reset :| PutToAll(before, reset, RESET_EVENT) && DealtTo(reset, queues, |ep.ticks|);
        DealEpoch(old(queues), before, reset, queues, Counts(epochs), |ep.ticks|);
        SizesOfEpoch(env, old(sizes), sizesBefore, sizes, traces, tr);
        assert Counts(epochs + [ep]) == Counts(epochs) + [|ep.ticks|];
        at, looks := WaitWhilePaused(env, reach, stopAt, at + 1);
        going := env(at + 1).state != STOPPING;
        at := at + 2;
        OneMoreEpoch(env, epochs, traces, pauses, ep, tr, looks, !going);
        epochs, traces, pauses := epochs + [ep], traces + [tr], pauses + [looks];
      }
      MessageAllWorkers(STOP_EVENT);
    }
  }

  /** What the loop guarantees about time: in every epoch no tick leaves early and no credit builds up. */
  lemma LoopPacesEveryTick(epochs: seq<Epoch>, e: nat, k: nat)
    requires e < |epochs| && Paced(epochs[e]) && k < |epochs[e].ticks|
    ensures
      var ep := epochs[e];
      && ep.ticks[k].b <= ep.ticks[k].a
      && ep.Due(k) - (k + 1) as real < ep.ticks[k].a as real
      && ep.Budget(k + 1) as real <= ep.intervals[k + 1]
      && LeftBy(ep, ep.ticks[k].a, |ep.ticks|) <= DueBy(ep, ep.ticks[k].a, |ep.ticks|)
  {
    assert epochs[e].Spun(k);
    NeverEarly(epochs[e], k);
    NoCredit(epochs[e], k);
    LoadNeverRunsAhead(epochs[e], epochs[e].ticks[k].a, |epochs[e].ticks|);
  }
}
