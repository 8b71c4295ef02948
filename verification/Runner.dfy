/**
 The runner's bounded wait (Treadmill.h) and the control interface (TreadmillFB303.cpp) in
 their own form.
 */
module Runner {
  import opened Events
  import opened SchedulerThread

  /** How many of the first `n` workers answered in poll `pass` that they have more work. */
  function Busy(answers: (nat, nat) -> bool, pass: nat, n: nat): nat {
    if n == 0 then 0 else Busy(answers, pass, n - 1) + if answers(pass, n - 1) then 1 else 0
  }

  /** Every one of the first `n` workers answered in poll `pass` that it has no more work. */
  predicate AllIdle(answers: (nat, nat) -> bool, pass: nat, n: nat) {
    forall i :: 0 <= i < n ==> !answers(pass, i)
  }

  lemma {:induction false} NobodyBusy(answers: (nat, nat) -> bool, pass: nat, n: nat)
    ensures Busy(answers, pass, n) == 0 <==> AllIdle(answers, pass, n)
  {
    if n == 0 {
    } else {
      NobodyBusy(answers, pass, n - 1);
    }
  }

  /**
   Polls once a second until a poll finds nobody busy or the delay is used up: there are at
   most `shutdownDelay` polls, every poll but the last found somebody busy, and the wait gives
   up only when the delay is used up.
   */
  method AwaitWorkers(workers: nat, shutdownDelay: int, answers: (nat, nat) -> bool)
      returns (remaining: nat, passes: nat)
    ensures shutdownDelay <= 0 ==> passes == 0
    ensures shutdownDelay > 0 ==> 1 <= passes <= shutdownDelay
    ensures passes > 0 ==> remaining == Busy(answers, passes - 1, workers)
    ensures forall p :: 0 <= p < passes - 1 ==> Busy(answers, p, workers) > 0
    ensures remaining > 0 ==> passes == shutdownDelay
    ensures passes > 0 ==> (remaining == 0 <==> AllIdle(answers, passes - 1, workers))
  {
    remaining, passes := 0, 0;
    if shutdownDelay > 0 {
      var secondsToWait := shutdownDelay;
      var again := true;
      while again
        invariant 0 <= secondsToWait <= shutdownDelay
        invariant again ==> secondsToWait > 0 && passes + secondsToWait == shutdownDelay
        invariant !again ==> 1 <= passes <= shutdownDelay && remaining == Busy(answers, passes - 1, workers)
        invariant !again && remaining > 0 ==> passes == shutdownDelay
        invariant forall p :: 0 <= p < passes - 1 ==> Busy(answers, p, workers) > 0
        invariant again && passes > 0 ==> Busy(answers, passes - 1, workers) > 0
        decreases again, secondsToWait
      {
        remaining := 0;
        for i := 0 to workers
          invariant remaining == Busy(answers, passes, i)
        {
          if answers(passes, i) {
            remaining := remaining + 1;
          }
        }
        passes := passes + 1;
        if remaining > 0 {
          secondsToWait := secondsToWait - 1;
        }
        again := secondsToWait > 0 && remaining > 0;
      }
      NobodyBusy(answers, passes - 1, workers);
    }
  }

  /** The remote-control calls that reach the scheduler. */
  class TreadmillFB303 {
    const scheduler: Scheduler
    const requireConfigurationOnResume: bool
    var configuration: map<string, string>

    constructor (scheduler: Scheduler, requireConfigurationOnResume: bool)
      ensures this.scheduler == scheduler && configuration == map[]
      ensures this.requireConfigurationOnResume == requireConfigurationOnResume
    {
      this.scheduler, this.requireConfigurationOnResume := scheduler, requireConfigurationOnResume;
      configuration := map[];
    }

    method Pause() returns (ok: bool)
      modifies scheduler`state
      ensures ok && scheduler.state == if old(scheduler.state) == RUNNING then PAUSED else old(scheduler.state)
    {
      scheduler.Pause();
      ok := true;
    }

    /** Refused without a configuration if one is required; otherwise true unless stopping. */
    method Resume() returns (ok: bool)
      modifies scheduler`state
      ensures
        var refused := requireConfigurationOnResume && configuration == map[];
        && (ok <==> !refused && old(scheduler.state) != STOPPING)
        && scheduler.state ==
           (if !refused && old(scheduler.state) == PAUSED then RUNNING else old(scheduler.state))
    {
      if requireConfigurationOnResume && configuration == map[] {
        ok := false;
      } else {
        ok := scheduler.Resume();
      }
    }

    /** The phase is in every queue before the scheduler can run again; no configuration is required. */
    method Resume2(phase: string) returns (success: bool, aborted: bool)
      requires scheduler.Valid()
      modifies scheduler`queues, scheduler`state
      ensures scheduler.Valid()
      ensures aborted <==> scheduler.waitForRunnerReady && old(scheduler.state) != PAUSED
      ensures aborted ==> !success && scheduler.queues == old(scheduler.queues) && scheduler.state == old(scheduler.state)
      ensures !aborted ==>
                && PutToAll(old(scheduler.queues), scheduler.queues, Event(SET_PHASE, Str(phase)))
                && (success <==> scheduler.state == RUNNING)
                && scheduler.state == (if old(scheduler.state) == PAUSED then RUNNING else old(scheduler.state))
    {
      success := false;
      aborted := scheduler.SetPhase(phase);
      if !aborted {
        success := scheduler.Resume();
      }
    }

    method SetMaxOutstanding(value: int)
      requires scheduler.Valid() && IsInt32(value)
      modifies scheduler`queues, scheduler`maxOutstanding
      ensures scheduler.Valid() && ToInt32(scheduler.maxOutstanding) == value
      ensures PutToAll(old(scheduler.queues), scheduler.queues,
                       Event(SET_MAX_OUTSTANDING, Int(scheduler.maxOutstanding)))
    {
      scheduler.SetMaxOutstandingRequests(value);
    }
  }
}
