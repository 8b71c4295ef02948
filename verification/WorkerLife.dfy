/**
 The methods of WorkerThread.Worker put together: a worker is built and started, events
 arrive and are handled, a reply fails and its failure is published.
 */
module WorkerLife {
  import opened Events
  import opened MemcachedWorkload
  import opened CounterStatistics
  import opened WorkerThread
  import Throughput
  import M = WorkerModel
  import System

  /** A running worker that has drained its queue: its limit and the requests sent and completed. */
  predicate Drained(w: M.Worker, limit: int, sent: nat, completed: set<nat>) {
    && w.started && w.running && w.consuming && w.pc.Idle? && w.taken == |w.log|
    && w.limit == limit && w.sent == sent && w.completed == completed
    && w.inFlight == (set id | 0 <= id < sent && id !in completed) && w.outstanding == |w.inFlight|
  }

  /** What a drained worker becomes when an event arrives and is handled. */
  function Delivered(c: M.Config, w: M.Worker, e: Event): M.Worker
    requires c.Valid() && |w.perConnection| == c.connections && w.connection < c.connections && w.taken == |w.log|
  {
    AfterEvent(c, M.Take(M.Put(w, e)), e, false)
  }

  lemma DeliveredSetting(c: M.Config, w: M.Worker, limit: int, value: int)
    requires c.Valid() && |w.perConnection| == c.connections && w.connection < c.connections
    requires Drained(w, limit, 0, {}) && IsInt32(value)
    ensures Drained(Delivered(c, w, RESET_EVENT), limit, 0, {})
    ensures Drained(Delivered(c, w, Event(SET_MAX_OUTSTANDING, Int(ToUint32(value)))), value, 0, {})
  {
    LimitRoundTrip(value);
  }

  lemma DeliveredTick(c: M.Config, w: M.Worker, limit: int, sent: nat, completed: set<nat>)
    requires c.Valid() && |w.perConnection| == c.connections && w.connection < c.connections
    requires Drained(w, limit, sent, completed) && w.outstanding < limit && sent !in completed
    ensures Drained(Delivered(c, w, SEND_EVENT), limit, sent + 1, completed)
  {
    var w' := Delivered(c, w, SEND_EVENT);
    assert w'.inFlight == w.inFlight + {sent};
    assert sent !in w.inFlight;
  }

  /** A worker is built and started. */
  method Build(config: M.Config, now: int) returns (worker: Worker)
    requires config.Valid()
    ensures fresh(worker) && fresh(worker.workload)
    ensures fresh(worker.exceptionsStatistic) && fresh(worker.uncaughtStatistic)
    ensures worker.Valid() && worker.Counting() && worker.config == config && worker.lastThroughputTime == now
    ensures Drained(worker.model, System.InitialLimit(config), 0, {})
    ensures worker.Accounts() == Books(map[], map[], map[], map[], 0, 0, Throughput.Start(now), [], [])
  {
    var service := new MemcachedService(config.keys);
    var exceptions := new CounterStatistic();
    var uncaught := new CounterStatistic();
    worker := new Worker(config, service, exceptions, uncaught);
    worker.Run(now);
  }

  /** An event arrives at a drained worker and is handled. */
  method Deliver(worker: Worker, event: Event, now: int)
    requires worker.Valid() && worker.Counting() && worker.running && now >= worker.lastThroughputTime
    requires
      var w := worker.model;
      w.started && w.consuming && w.pc.Idle? && w.taken == |w.log|
    modifies worker, worker.workload, worker.exceptionsStatistic, worker.uncaughtStatistic
    ensures worker.Valid() && worker.Counting()
    ensures worker.model == Delivered(worker.config, old(worker.model), event)
    ensures if event.kind == SEND_REQUEST
            then Flushed(worker.config.workers, worker.outstanding, old(worker.Accounts()), worker.Accounts(), now)
            else worker.Accounts() == old(worker.Accounts())
  {
    worker.Enqueue(event);
    var _ := worker.MessageAvailable(event, false, now);
  }

  /** A worker handles a RESET and a limit change. */
  method Prepare(worker: Worker, limit: int, now: int)
    requires worker.Valid() && worker.Counting() && now >= worker.lastThroughputTime && IsInt32(limit)
    requires Drained(worker.model, worker.maxOutstanding, 0, {})
    modifies worker, worker.workload, worker.exceptionsStatistic, worker.uncaughtStatistic
    ensures worker.Valid() && worker.Counting() && Drained(worker.model, limit, 0, {})
    ensures worker.Accounts() == old(worker.Accounts())
  {
    DeliveredSetting(worker.config, worker.model, worker.maxOutstanding, limit);
    Deliver(worker, RESET_EVENT, now);
    DeliveredSetting(worker.config, worker.model, worker.maxOutstanding, limit);
    Deliver(worker, Event(SET_MAX_OUTSTANDING, Int(ToUint32(limit))), now);
  }

  /** A tick arrives below the limit, and a request is sent. */
  method SendOne(worker: Worker, limit: int, sent: nat, ghost completed: set<nat>, now: int)
    requires worker.Valid() && worker.Counting() && now >= worker.lastThroughputTime
    requires Drained(worker.model, limit, sent, completed) && worker.outstanding < limit && sent !in completed
    modifies worker, worker.workload, worker.exceptionsStatistic, worker.uncaughtStatistic
    ensures worker.Valid() && worker.Counting() && Drained(worker.model, limit, sent + 1, completed)
    ensures Flushed(worker.config.workers, worker.outstanding, old(worker.Accounts()), worker.Accounts(), now)
  {
    DeliveredTick(worker.config, worker.model, limit, sent, completed);
    Deliver(worker, SEND_EVENT, now);
  }

  /** Nothing is pending or published except that `failures` are pending. */
  ghost predicate OnlyPending(b: Books, failures: map<string, nat>, now: int) {
    && b.exceptions == failures && b.exceptionTotal == 0
    && (forall name :: name != "" ==> Get(b.exceptionCells, name) == 0)
    && b.meter.last <= now && !b.meter.reading
  }

  lemma NothingToFlush(workers: nat, outstanding: int, before: Books, after: Books, now: int)
    requires OnlyPending(before, map[], now) && Flushed(workers, outstanding, before, after, now)
    ensures OnlyPending(after, map[], now)
  {
  }

  lemma OneFailureFlushed(workers: nat, outstanding: int, before: Books, after: Books, failure: string, now: int)
    requires OnlyPending(before, Plus(map[], failure, 1), now) && Flushed(workers, outstanding, before, after, now)
    ensures after.exceptions == map[] && after.exceptionTotal == 1
    ensures failure != "" ==> Get(after.exceptionCells, failure) == 1
  {
    SumMapPlus(map[], failure, 1);
  }

  /** A worker is built and sends a request. */
  method SendFirst(config: M.Config, t0: int, t1: int) returns (worker: Worker)
    requires config.Valid() && t0 <= t1
    ensures fresh(worker) && fresh(worker.workload)
    ensures fresh(worker.exceptionsStatistic) && fresh(worker.uncaughtStatistic)
    ensures worker.Valid() && worker.Counting() && Drained(worker.model, 2, 1, {})
    ensures OnlyPending(worker.Accounts(), map[], t1)
  {
    worker := Build(config, t0);
    Prepare(worker, 2, t0);
    ghost var before := worker.Accounts();
    SendOne(worker, 2, 0, {}, t1);
    NothingToFlush(worker.config.workers, worker.outstanding, before, worker.Accounts(), t1);
  }

  lemma CompletedOnce(w: M.Worker, limit: int)
    requires Drained(w, limit, 1, {})
    ensures M.CanComplete(w, 0) && Drained(M.Complete(w, 0), limit, 1, {0})
  {
    assert w.inFlight == {0};
  }

  /** The reply to that request fails. */
  method FailFirst(worker: Worker, failure: string, t1: int, t2: int)
    requires worker.Valid() && worker.Counting() && Drained(worker.model, 2, 1, {}) && t1 <= t2
    requires OnlyPending(worker.Accounts(), map[], t1)
    modifies worker
    ensures worker.Valid() && worker.Counting() && Drained(worker.model, 2, 1, {0})
    ensures OnlyPending(worker.Accounts(), Plus(map[], failure, 1), t2)
  {
    CompletedOnce(worker.model, 2);
    worker.OnReply(0, failure, true, t1, t2);
  }

  /**
   A worker from its construction to the publication of a failure: it sends a request, the
   reply fails, and the next tick publishes that failure, once, whatever time has passed.
   */
  method FailureIsPublished(config: M.Config, failure: string, t0: int, t1: int, t2: int) returns (worker: Worker)
    requires config.Valid() && t0 <= t1 <= t2
    ensures worker.Valid() && worker.Counting() && Drained(worker.model, 2, 2, {0})
    ensures worker.exceptionsByType == map[] && worker.exceptionsStatistic.count == 1
    ensures failure != "" ==> Get(worker.exceptionsStatistic.subkeyCount, failure) == 1
  {
    worker := SendFirst(config, t0, t1);
    FailFirst(worker, failure, t1, t2);
    ghost var before := worker.Accounts();
    SendOne(worker, 2, 1, {0}, t2);
    OneFailureFlushed(worker.config.workers, worker.outstanding, before, worker.Accounts(), failure, t2);
  }
}
