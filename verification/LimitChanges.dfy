/**
 Limit changes at run time. They are not divided among the workers: Scheduler.cpp sends every
 worker the value asked for, whereas Treadmill.h divides the maximum at start-up. So the most
 that the workers together can have outstanding is n times the largest of the share at
 start-up and the values asked for, and the maximum is kept exactly if n times each value fits
 into it. Of several changes the last one takes effect if it is asked for alone.
 */
module LimitChanges {
  import opened Arithmetic
  import opened Events
  import opened WorkerModel
  import opened WorkerInvariant
  import opened System
  import opened SystemInvariant
  import opened SystemTheorems
  import opened WitnessRuns

  // ---------- No worker exceeds the largest value asked for ----------

  /** If the event sets a limit, it is at most `bound`. */
  predicate AsksAtMost(bound: int, e: Event) {
    e.kind == SET_MAX_OUTSTANDING && e.extraData.Int? ==> ToInt32(e.extraData.value) <= bound
  }

  ghost predicate WorkerAtMost(bound: int, w: Worker) {
    && w.limit <= bound && w.outstanding <= bound
    && (w.pc.Handling? ==> AsksAtMost(bound, w.pc.e))
    && (forall q :: 0 <= q < |w.log| ==> AsksAtMost(bound, w.log[q]))
  }

  ghost predicate AtMost(bound: int, s: System) {
    && (forall i :: 0 <= i < |s.workers| ==> WorkerAtMost(bound, s.workers[i]))
    && (forall j :: 0 <= j < |s.calls| && s.calls[j].Broadcasting? ==> AsksAtMost(bound, s.calls[j].e))
  }

  lemma WorkerAtMostOnAct(c: Config, bound: int, w: Worker, exhausted: bool)
    requires c.Valid() && |w.perConnection| == c.connections && w.connection < c.connections
    requires WorkerAtMost(bound, w) && WithinLimit(w)
    ensures WorkerAtMost(bound, Act(c, w, exhausted))
  {
  }

  lemma WorkerAtMostOnPut(bound: int, w: Worker, e: Event)
    requires WorkerAtMost(bound, w) && AsksAtMost(bound, e)
    ensures WorkerAtMost(bound, Put(w, e))
  {
  }

  /** An event that a step puts into a queue, if any, asks for at most `bound`. */
  ghost predicate PutsAtMost(bound: int, w: Worker, w': Worker) {
    w'.log == w.log || exists e :: AsksAtMost(bound, e) && w' == Put(w, e)
  }

  /** What a step puts into a queue is the scheduler's own or carried by a call. */
  lemma StepPutsAtMost(c: Config, bound: int, s: System, step: Step, i: nat)
    requires c.Valid() && |s.workers| == c.workers && Enabled(c, s, step) && i < c.workers && AtMost(bound, s)
    ensures |Apply(c, s, step).workers| == c.workers
    ensures PutsAtMost(bound, s.workers[i], Apply(c, s, step).workers[i])
  {
    match step
    case SchedulerStep =>
      SchedulerChangesWorker(c, s, i);
      assert AsksAtMost(bound, RESET_EVENT) && AsksAtMost(bound, SEND_EVENT) && AsksAtMost(bound, STOP_EVENT);
    case CallStep(j) => CallChangesWorker(c, s, j, i);
    case RunnerStep => RunnerChangesWorker(c, s, i);
    case _ =>
  }

  lemma WorkerAtMostKept(c: Config, bound: int, s: System, step: Step, w: Worker, w': Worker)
    requires c.Valid() && WorkerChange(c, s, step, w, w') && w'.log == w.log && !step.ActStep?
    requires WorkerAtMost(bound, w)
    ensures WorkerAtMost(bound, w')
  {
    assert w'.limit == w.limit && w'.outstanding <= w.outstanding;
  }

  lemma WorkerAtMostChange(c: Config, bound: int, s: System, step: Step, w: Worker, w': Worker)
    requires c.Valid() && WorkerChange(c, s, step, w, w') && PutsAtMost(bound, w, w')
    requires WorkerAtMost(bound, w) && WithinLimit(w)
    ensures WorkerAtMost(bound, w')
  {
    if w' == w {
    } else if w'.log != w.log {
      var e :| AsksAtMost(bound, e) && w' == Put(w, e);
      WorkerAtMostOnPut(bound, w, e);
    } else if step.ActStep? {
      WorkerAtMostOnAct(c, bound, w, step.exhausted);
    } else {
      WorkerAtMostKept(c, bound, s, step, w, w');
    }
  }

  ghost predicate AllWithinLimit(s: System) {
    forall i :: 0 <= i < |s.workers| ==> WithinLimit(s.workers[i])
  }

  lemma RunWithinLimit(c: Config, run: seq<System>, k: nat)
    requires c.Valid() && IsRun(c, run) && k < |run|
    ensures |run[k].workers| == c.workers && AllWithinLimit(run[k])
  {
    SchedulerAt(c, run, k);
    forall i | 0 <= i < c.workers
      ensures WithinLimit(run[k].workers[i])
    {
      WorkerAt(c, run, k, i);
    }
  }

  /** A limit change in progress has been asked for. */
  ghost predicate SetMeansAsked(s: System) {
    forall j :: 0 <= j < |s.calls| && s.calls[j].Loading? ==> s.everSet
  }

  lemma SetterMeansSet(c: Config, run: seq<System>, k: nat)
    requires c.Valid() && IsRun(c, run) && k < |run|
    ensures SetMeansAsked(run[k])
  {
    InvOnRun(c, run, k);
    assert forall j :: 0 <= j < |run[k].calls| && run[k].calls[j].Loading? ==> IsSetter(run[k].calls[j]);
  }

  lemma CallsAtMostStep(c: Config, bound: int, s: System, step: Step)
    requires c.Valid() && |s.workers| == c.workers && Enabled(c, s, step) && AtMost(bound, s)
    requires (s.everSet ==> ToInt32(s.maxOutstanding) <= bound) && SetMeansAsked(s)
    ensures
      var s' := Apply(c, s, step);
      forall j :: 0 <= j < |s'.calls| && s'.calls[j].Broadcasting? ==> AsksAtMost(bound, s'.calls[j].e)
  {
    var s' := Apply(c, s, step);
    if !step.CallStep? {
      forall j | 0 <= j < |s.calls|
        ensures s'.calls[j] == s.calls[j]
      {
        OthersKeepCall(c, s, step, j);
      }
    }
  }

  lemma AtMostStep(c: Config, bound: int, s: System, step: Step)
    requires c.Valid() && |s.workers| == c.workers && Enabled(c, s, step) && AtMost(bound, s)
    requires AllWithinLimit(s) && (s.everSet ==> ToInt32(s.maxOutstanding) <= bound) && SetMeansAsked(s)
    ensures AtMost(bound, Apply(c, s, step))
  {
    var s' := Apply(c, s, step);
    StepChangesWorker(c, s, step, 0);
    forall i | 0 <= i < |s'.workers|
      ensures WorkerAtMost(bound, s'.workers[i])
    {
      StepChangesWorker(c, s, step, i);
      StepPutsAtMost(c, bound, s, step, i);
      WorkerAtMostChange(c, bound, s, step, s.workers[i], s'.workers[i]);
    }
    CallsAtMostStep(c, bound, s, step);
  }

  lemma AtMostInitially(c: Config, bound: nat)
    requires c.Valid() && InitialLimit(c) <= bound
    ensures AtMost(bound, Init(c))
  {
  }

  /** No value above `bound` is ever asked for at run time. */
  predicate NoneAbove(values: set<int>, bound: int) {
    forall v :: v in values ==> v <= bound
  }

  lemma {:induction false} AtMostOnRun(c: Config, values: set<int>, run: seq<System>, k: nat, bound: nat)
    requires c.Valid() && Asking(c, values, run) && k < |run|
    requires InitialLimit(c) <= bound && NoneAbove(values, bound)
    ensures AtMost(bound, run[k])
  {
    if k == 0 {
      AtMostInitially(c, bound);
    } else {
      AtMostOnRun(c, values, run, k - 1, bound);
      RunWithinLimit(c, run, k - 1);
      SetterMeansSet(c, run, k - 1);
      var step := StepAt(c, run, k - 1);
      AtMostStep(c, bound, run[k - 1], step);
    }
  }

  /**
   Whatever limit changes are made and however they interleave, no worker has more
   outstanding than its share at start-up or the largest value asked for at run time.
   */
  lemma LargestValueBoundsEachWorker(c: Config, values: set<int>, run: seq<System>, k: nat, bound: nat)
    requires c.Valid() && Asking(c, values, run) && k < |run|
    requires InitialLimit(c) <= bound && NoneAbove(values, bound)
    ensures |run[k].workers| == c.workers
    ensures forall i :: 0 <= i < c.workers ==> 0 <= run[k].workers[i].outstanding <= bound
    ensures TotalOutstanding(run[k].workers) <= c.workers * bound
  {
    AtMostOnRun(c, values, run, k, bound);
    RunWithinLimit(c, run, k);
    TotalIsBounded(run[k].workers, bound);
  }

  // ---------- Runs that reach the bound ----------

  lemma {:induction false} TotalOfEqual(workers: seq<Worker>, each: int)
    requires forall i :: 0 <= i < |workers| ==> workers[i].outstanding == each
    ensures TotalOutstanding(workers) == |workers| * each
  {
    if workers == [] {
    } else {
      TotalOfEqual(workers[..|workers| - 1], each);
      assert |workers| * each == (|workers| - 1) * each + each;
    }
  }

  /** Every worker fills its limit. */
  lemma Fill(c: Config, values: set<int>, run: seq<System>, limit: int) returns (run': seq<System>)
    requires c.Valid() && Asking(c, values, run) && Round(c, Last(run), limit, 0, 0)
    ensures Asking(c, values, run') && TotalOutstanding(Last(run').workers) == c.workers * Max(limit, 0)
  {
    run' := FillWorkers(c, values, run, limit, Max(limit, 0), 0);
    TotalOfEqual(Last(run').workers, Max(limit, 0));
  }

  lemma BoundIsReached(c: Config, values: set<int>, bound: nat) returns (run: seq<System>)
    requires c.Valid() && (bound == Max(InitialLimit(c), 0) || (bound in values && IsInt32(bound)))
    ensures Asking(c, values, run) && TotalOutstanding(Last(run).workers) == c.workers * bound
  {
    if bound == Max(InitialLimit(c), 0) {
      run := FirstTest(c, values);
      run := Fill(c, values, run, InitialLimit(c));
    } else {
      run := ChangeLimit(c, values, bound);
      run := Fill(c, values, run, bound);
    }
  }

  /** The largest of `floor` and the values. */
  lemma {:induction false} Largest(values: set<int>, floor: nat) returns (bound: nat)
    ensures NoneAbove(values, bound) && floor <= bound && (bound == floor || bound in values)
    decreases |values|
  {
    if v :| v in values {
      var rest := Largest(values - {v}, floor);
      bound := Max(rest, v);
      forall u | u in values
        ensures u <= bound
      {
        assert u == v || u in values - {v};
      }
    } else {
      bound := floor;
    }
  }

  /**
   The most that all workers together can have outstanding if no other limits than `values`
   are asked for at run time: n times the largest of these and of the share at start-up, and
   not n times the configured maximum, which is divided only once. No run exceeds it, and one
   reaches it.
   */
  lemma LargestTotal(c: Config, values: set<int>) returns (bound: nat, run: seq<System>)
    requires c.Valid() && forall v :: v in values ==> IsInt32(v)
    ensures InitialLimit(c) <= bound && NoneAbove(values, bound)
    ensures bound == Max(InitialLimit(c), 0) || bound in values
    ensures forall run': seq<System>, k :: Asking(c, values, run') && 0 <= k < |run'| ==>
              TotalOutstanding(run'[k].workers) <= c.workers * bound
    ensures Asking(c, values, run) && TotalOutstanding(Last(run).workers) == c.workers * bound
  {
    bound := Largest(values, Max(InitialLimit(c), 0));
    run := BoundIsReached(c, values, bound);
    forall run': seq<System>, k | Asking(c, values, run') && 0 <= k < |run'|
      ensures TotalOutstanding(run'[k].workers) <= c.workers * bound
    {
      LargestValueBoundsEachWorker(c, values, run', k, bound);
    }
  }

  /** In particular a limit change is not divided: asking for `value` allows n times that many. */
  lemma LimitChangeIsNotDivided(c: Config, value: nat) returns (run: seq<System>)
    requires c.Valid() && IsInt32(value)
    ensures Asking(c, {value}, run) && TotalOutstanding(Last(run).workers) == c.workers * value
  {
    run := BoundIsReached(c, {value}, value);
  }

  // ---------- When the maximum is kept ----------

  ghost predicate MaximumKept(c: Config, run: seq<System>) {
    forall k :: 0 <= k < |run| ==> TotalOutstanding(run[k].workers) <= Max(c.maxOutstanding, 0)
  }

  /** All workers together may fill `value` without exceeding the configured maximum. */
  predicate Fits(c: Config, value: int) {
    c.workers * Max(value, 0) <= Max(c.maxOutstanding, 0)
  }

  /**
   Changing the limit at run time keeps the workers together within the configured maximum, in
   every run that asks for no other values than these, if and only if n times each of them does.
   */
  lemma MaximumIsKeptIffValuesFit(c: Config, values: set<int>)
    requires c.Valid() && forall v :: v in values ==> IsInt32(v)
    ensures (forall run | Asking(c, values, run) :: MaximumKept(c, run)) <==> forall v :: v in values ==> Fits(c, v)
  {
    var bound, most := LargestTotal(c, values);
    SplitLimit(c.maxOutstanding, c.workers);
    if forall v :: v in values ==> Fits(c, v) {
      assert Fits(c, bound);
    } else {
      var v :| v in values && !Fits(c, v);
      assert v > 0 by {
        assert c.workers * 0 == 0;
      }
      Product(c.workers, v, bound);
      assert TotalOutstanding(most[|most| - 1].workers) > Max(c.maxOutstanding, 0);
      assert !MaximumKept(c, most);
    }
  }

  /** Even asking for the configured maximum again keeps it only with one worker, or if it allows nothing. */
  lemma SameMaximumFitsIffOneWorker(c: Config)
    requires c.Valid()
    ensures Fits(c, c.maxOutstanding) <==> c.workers == 1 || c.maxOutstanding <= 0
  {
    Multiple(c.workers, Max(c.maxOutstanding, 0));
  }

  // ---------- Overlapping limit changes ----------

  /** Step m of the run asks for a limit. */
  predicate Asks(run: seq<System>, m: nat)
    requires m + 1 < |run|
  {
    |run[m + 1].calls| > |run[m].calls| && run[m + 1].calls[|run[m].calls|].Loading?
  }

  /** Step j asks for a limit, and no later step up to k does. */
  ghost predicate LastChange(c: Config, run: seq<System>, j: nat, k: nat)
    requires c.Valid()
  {
    IsRun(c, run) && j < k < |run| && Asks(run, j) && forall m :: j < m < k ==> !Asks(run, m)
  }

  lemma AskStep(c: Config, run: seq<System>, m: nat)
    requires c.Valid() && IsRun(c, run) && m + 1 < |run|
    ensures |run[m].calls| <= |run[m + 1].calls|
    ensures
      var s, s' := run[m], run[m + 1];
      if Asks(run, m) then s'.everSet && s'.overlapped == SetterActive(s)
      else s'.everSet == s.everSet && s'.overlapped == s.overlapped && s'.maxOutstanding == s.maxOutstanding
  {
    var step := StepAt(c, run, m);
    match step
    case CallStep(j) =>
      match run[m].calls[j] {
        case Broadcasting(e, pos, resume) =>
        case _ =>
      }
    case _ =>
  }

  lemma {:induction false} LastChangeStays(c: Config, run: seq<System>, j: nat, k: nat)
    requires c.Valid() && LastChange(c, run, j, k)
    ensures
      var s := run[k];
      s.everSet && s.overlapped == SetterActive(run[j]) && s.maxOutstanding == run[j + 1].maxOutstanding
  {
    AskStep(c, run, k - 1);
    if k == j + 1 {
    } else {
      assert !Asks(run, k - 1);
      LastChangeStays(c, run, j, k - 1);
    }
  }

  /** No change is in progress, and worker `i` still consumes and has drained its queue. */
  ghost predicate AtRest(c: Config, s: System, i: nat) {
    && |s.workers| == c.workers && i < c.workers && !SetterActive(s)
    && s.workers[i].started && s.workers[i].consuming && s.workers[i].pc.Idle?
    && s.workers[i].taken == |s.workers[i].log|
  }

  /** A worker at rest after the last change holds the value asked for. */
  ghost predicate LastChangeHeld(c: Config, run: seq<System>, j: nat, k: nat, i: nat)
    requires c.Valid() && LastChange(c, run, j, k)
  {
    AtRest(c, run[k], i) ==> run[k].workers[i].limit == ToInt32(run[j + 1].maxOutstanding)
  }

  /** Only the change asked for last has to be alone; earlier ones may have overlapped. */
  lemma LoneChangeIsHeld(c: Config, run: seq<System>, j: nat, k: nat, i: nat)
    requires c.Valid() && LastChange(c, run, j, k) && !SetterActive(run[j])
    ensures LastChangeHeld(c, run, j, k, i)
  {
    LastChangeStays(c, run, j, k);
    if AtRest(c, run[k], i) {
      DrainedWorkerHoldsLastLimit(c, run, k, i);
    }
  }

  /** The calls never get fewer, so that as many calls later on mean that none was begun. */
  lemma {:induction false} CallsGrow(c: Config, run: seq<System>, j: nat, k: nat)
    requires c.Valid() && IsRun(c, run) && j <= k < |run|
    ensures |run[j].calls| <= |run[k].calls|
  {
    if j == k {
    } else {
      CallsGrow(c, run, j, k - 1);
      AskStep(c, run, k - 1);
    }
  }

  lemma SameCallsMeanNoAsk(c: Config, run: seq<System>, j: nat, k: nat)
    requires c.Valid() && IsRun(c, run) && j <= k < |run| && |run[j].calls| == |run[k].calls|
    ensures forall m :: j <= m < k ==> !Asks(run, m)
  {
    forall m | j <= m < k
      ensures !Asks(run, m)
    {
      CallsGrow(c, run, j, m);
      CallsGrow(c, run, m + 1, k);
    }
  }

  /**
   If two limit changes overlap, the last one asked for can be lost: for every configuration
   and any two values there is a run whose step j asks for the second value while only the
   change to the first is in progress, and in which later both calls have returned and every
   worker still consumes and has drained its queue, yet holds the first value.
   */
  lemma OverlappingChangesLoseTheLast(c: Config, first: int, second: int) returns (run: seq<System>, j: nat)
    requires c.Valid() && IsInt32(first) && IsInt32(second)
    ensures run != [] && LastChange(c, run, j, |run| - 1) && Setters(run[j].calls) == 1
    ensures ToInt32(run[j + 1].maxOutstanding) == second
    ensures AllReady(c, Last(run), first, 0) && !SetterActive(Last(run))
  {
    var values := {first, second};
    var run0 := FirstTest(c, values);
    run0 := Ask(c, values, run0, first);
    j := |run0| - 1;
    assert run0[j].calls[..0] == [];
    var run1 := Extend(c, values, run0, StartSetMaxOutstanding(second));
    var run2 := Extend(c, values, run1, CallStep(1));
    var call;
    run, call := Deliver(c, values, run2, 1, second, InitialLimit(c));
    run, call := Deliver(c, values, run, 0, first, second);
    LimitRoundTrip(second);
    assert run[j] == run0[j] && run[j + 1] == run1[j + 1];
    SameCallsMeanNoAsk(c, run, j + 1, |run| - 1);
  }

  /** How many limit changes are in progress. */
  function Setters(calls: seq<Call>): nat {
    if calls == [] then 0 else Setters(calls[..|calls| - 1]) + if IsSetter(calls[|calls| - 1]) then 1 else 0
  }

  lemma {:induction false} NoSetters(calls: seq<Call>)
    requires Setters(calls) == 0
    ensures forall j :: 0 <= j < |calls| ==> !IsSetter(calls[j])
  {
    if calls == [] {
    } else {
      NoSetters(calls[..|calls| - 1]);
    }
  }

  /**
   The limit asked for last, while at most m other changes were in progress, is what workers at
   rest hold, in every run, if and only if m is 0.
   */
  lemma LastChangeIsHeldIffAlone(c: Config, m: nat)
    requires c.Valid()
    ensures (forall run: seq<System>, j: nat, k: nat, i: nat | LastChange(c, run, j, k) && Setters(run[j].calls) <= m ::
               LastChangeHeld(c, run, j, k, i)) <==> m == 0
  {
    if m == 0 {
      forall run: seq<System>, j: nat, k: nat, i: nat | LastChange(c, run, j, k) && Setters(run[j].calls) <= m
        ensures LastChangeHeld(c, run, j, k, i)
      {
        NoSetters(run[j].calls);
        LoneChangeIsHeld(c, run, j, k, i);
      }
    } else {
      var run, j := OverlappingChangesLoseTheLast(c, 1, 2);
      assert Ready(c, Last(run).workers[0], 1, 0, []);
      assert !LastChangeHeld(c, run, j, |run| - 1, 0);
    }
  }
}
