/**
 Worker.h in its own form: an object whose event thread handles one event at a time. Its
 fields are tied to the value model by a ghost field, and each method is proved to take the
 model through exactly the actions of the transition system.
 */
module WorkerThread {
  import opened Events
  import opened MemcachedWorkload
  import opened CounterStatistics
  import Throughput
  import M = WorkerModel
  import System

  /** All actions of handling one event; an action of an idle thread changes nothing. */
  function Settle(c: M.Config, w: M.Worker, exhausted: bool): M.Worker
    requires c.Valid() && |w.perConnection| == c.connections && w.connection < c.connections
  {
    M.Act(c, M.Act(c, M.Act(c, M.Act(c, w, exhausted), exhausted), exhausted), exhausted)
  }

  /** What sendRequest does to the worker, before its statistics are published. */
  function Decide(c: M.Config, w: M.Worker, exhausted: bool): M.Worker
    requires c.Valid() && |w.perConnection| == c.connections && w.connection < c.connections
  {
    if w.outstanding < w.limit && w.running then
      if exhausted then M.Exhaust(w) else M.Send(c, w)
    else M.Drop(w)
  }

  /** The actions from the decision on, one after the other, are what sendRequest does. */
  lemma SettleDecision(c: M.Config, w: M.Worker, exhausted: bool)
    requires c.Valid() && |w.perConnection| == c.connections && w.connection < c.connections
    requires w.pc.Deciding?
    ensures M.Act(c, M.Act(c, M.Act(c, w, exhausted), exhausted), exhausted)
            == Decide(c, w, exhausted).(pc := M.Idle)
  {
    var w1 := M.Act(c, w, exhausted);
    if w1.pc.Sending? {
      assert w1 == w.(pc := M.Sending);
    } else {
      assert w1 == M.Drop(w);
    }
  }

  /** What messageAvailable does to a worker that holds event `e`. */
  function AfterEvent(c: M.Config, w: M.Worker, e: Event, exhausted: bool): M.Worker
    requires c.Valid() && |w.perConnection| == c.connections && w.connection < c.connections
  {
    var h := M.Handle(w, e);
    if h.pc.Halting? then h.(running := false, pc := M.Idle)
    else if h.pc.Deciding? then Decide(c, h, exhausted).(pc := M.Idle)
    else h
  }

  /** The actions of handling an event, one after the other, are what messageAvailable does. */
  lemma SettleEvent(c: M.Config, w: M.Worker, e: Event, exhausted: bool)
    requires c.Valid() && |w.perConnection| == c.connections && w.connection < c.connections
    requires w.pc == M.Handling(e)
    ensures Settle(c, w, exhausted) == AfterEvent(c, w, e, exhausted)
  {
    var h := M.Handle(w, e);
    assert M.Act(c, w, exhausted) == h;
    if h.pc.Deciding? {
      SettleDecision(c, h, exhausted);
    }
  }

  /** Handling the event ends in the early termination of the run. */
  predicate Terminates(w: M.Worker, e: Event, exhausted: bool) {
    e.kind == SEND_REQUEST && w.running && w.outstanding < w.limit && exhausted
  }

  /** What a worker has yet to publish and what has been published. */
  datatype Books = Books(
    exceptions: map<string, nat>, uncaught: map<string, nat>,
    exceptionCells: map<string, nat>, uncaughtCells: map<string, nat>,
    exceptionTotal: nat, uncaughtTotal: nat,
    meter: Throughput.Meter, outstandingSamples: seq<int>, latencies: seq<real>)

  /**
   All pending amounts have reached their cells and the totals, and samples of the throughput
   and of the requests outstanding were taken if it was time.
   */
  ghost predicate Flushed(workers: nat, outstanding: int, before: Books, after: Books, now: int) {
    && after.exceptions == map[] && after.uncaught == map[]
    && AllAdded(before.exceptionCells, before.exceptions, after.exceptionCells, map[])
    && AllAdded(before.uncaughtCells, before.uncaught, after.uncaughtCells, map[])
    && after.exceptionTotal == before.exceptionTotal + SumMap(before.exceptions)
    && after.uncaughtTotal == before.uncaughtTotal + SumMap(before.uncaught)
    && after.meter == Throughput.Measured(workers, before.meter, now)
    && after.outstandingSamples ==
       (if Throughput.Seconds(now - before.meter.last) >= 0.1
        then before.outstandingSamples + [outstanding * workers] else before.outstandingSamples)
    && after.latencies == before.latencies
  }

  /** The fields of a worker that the protocol depends on. */
  datatype Fields = Fields(
    running: bool, consuming: bool, limit: int, outstanding: int, connection: nat, phase: string, workload: Workload)

  function FieldsOf(w: M.Worker): Fields {
    Fields(w.running, w.consuming, w.limit, w.outstanding, w.connection, w.phase, w.workload)
  }

  /** The throughput fields of a worker: the counter, the time of the last sample, the values added. */
  datatype Gauge = Gauge(pending: nat, last: int, values: seq<real>)

  function GaugeOf(m: Throughput.Meter): Gauge {
    Gauge(m.pending, m.last, seq(|m.samples|, k requires 0 <= k < |m.samples| => m.samples[k].value))
  }

  lemma GaugeAfterSample(workers: nat, m: Throughput.Meter, now: int)
    requires !m.reading
    ensures
      var delta := Throughput.Seconds(now - m.last);
      GaugeOf(Throughput.Measured(workers, m, now)) ==
      if delta >= 0.1
      then Gauge(0, now, GaugeOf(m).values + [Throughput.Rate(m.pending, delta, workers)])
      else GaugeOf(m)
  {
    var delta := Throughput.Seconds(now - m.last);
    if delta >= 0.1 {
      var value := Throughput.Rate(m.pending, delta, workers);
      var m' := Throughput.Measured(workers, m, now);
      assert m'.samples == m.samples + [Throughput.Sample(value, m.last, now)];
      assert GaugeOf(m').values == GaugeOf(m).values + [value];
    }
  }

  class Worker {
    const config: M.Config
    const workload: MemcachedService
    const exceptionsStatistic: CounterStatistic
    const uncaughtStatistic: CounterStatistic

    var running: bool
    var consuming: bool
    var maxOutstanding: int
    var outstanding: int
    var connIdx: nat
    var phase: string
    var nThroughput: nat
    var lastThroughputTime: int
    var exceptionsByType: map<string, nat>
    var uncaughtByType: map<string, nat>
    var throughput: seq<real>          // values added to the throughput statistic
    var outstandingSamples: seq<int>   // values added to the outstanding statistic
    var latencies: seq<real>           // values added to the latency statistic

    ghost var model: M.Worker
    ghost var meter: Throughput.Meter

    ghost predicate Ready()
      reads workload
    {
      config.Valid() && workload.Valid() && workload.numberOfKeys == config.keys
    }

    ghost predicate Counting()
      reads exceptionsStatistic, uncaughtStatistic
    {
      exceptionsStatistic.Valid() && uncaughtStatistic.Valid() && exceptionsStatistic != uncaughtStatistic
    }

    ghost function View(): Fields
      reads this, workload
    {
      Fields(running, consuming, maxOutstanding, outstanding, connIdx, phase, workload.Value())
    }

    /** The fields say what the model says. */
    ghost predicate Tied()
      reads this, workload
    {
      && config.Valid() && |model.perConnection| == config.connections && model.connection < config.connections
      && View() == FieldsOf(model)
    }

    ghost predicate Metered()
      reads this
    {
      && config.Valid() && Throughput.Reached(config.workers, meter) && !meter.reading
      && Gauge(nThroughput, lastThroughputTime, throughput) == GaugeOf(meter)
    }

    ghost predicate Valid()
      reads this, workload
    {
      Ready() && Tied() && Metered()
    }

    /** Samples and pending count of a worker account for all its replies, at any time. */
    lemma Accounted()
      requires Valid()
      ensures Throughput.Inv(true, config.workers, meter)
      ensures Throughput.Sampled(config.workers, meter.samples) + nThroughput as real == meter.completed as real
    {
      Throughput.ReachedAccounts(config.workers, meter);
    }

    ghost function Accounts(): Books
      reads this, exceptionsStatistic, uncaughtStatistic
    {
      Books(exceptionsByType, uncaughtByType, exceptionsStatistic.subkeyCount, uncaughtStatistic.subkeyCount,
            exceptionsStatistic.count, uncaughtStatistic.count, meter, outstandingSamples, latencies)
    }

    /** The constructor; the runner gives every worker the same share of the configured maximum. */
    constructor (config: M.Config, workload: MemcachedService,
                 exceptionsStatistic: CounterStatistic, uncaughtStatistic: CounterStatistic)
      requires config.Valid() && workload.Valid() && workload.numberOfKeys == config.keys
      requires workload.Value() == INITIAL
      requires exceptionsStatistic.Valid() && uncaughtStatistic.Valid() && exceptionsStatistic != uncaughtStatistic
      ensures Valid() && Counting() && model == System.InitialWorker(config)
      ensures this.config == config && this.workload == workload
      ensures this.exceptionsStatistic == exceptionsStatistic && this.uncaughtStatistic == uncaughtStatistic
      ensures meter == Throughput.Start(0) && lastThroughputTime == 0
      ensures exceptionsByType == map[] && uncaughtByType == map[]
      ensures throughput == [] && outstandingSamples == [] && latencies == []
    {
      this.config, this.workload := config, workload;
      this.exceptionsStatistic, this.uncaughtStatistic := exceptionsStatistic, uncaughtStatistic;
      running, consuming, maxOutstanding, outstanding := false, false, System.InitialLimit(config), 0;
      connIdx, phase, nThroughput, lastThroughputTime := 0, "", 0, 0;
      exceptionsByType, uncaughtByType := map[], map[];
      throughput, outstandingSamples, latencies := [], [], [];
      model, meter := System.InitialWorker(config), Throughput.Start(0);
      Throughput.ReachedStart(config.workers, 0);
    }

    /** Worker::run and the start of senderLoop. */
    method Run(now: int)
      requires Valid() && !model.started && meter == Throughput.Start(lastThroughputTime)
      modifies this`running, this`consuming, this`lastThroughputTime, this`model, this`meter
      ensures Valid() && model == M.Start(old(model)) && meter == Throughput.Start(now)
    {
      running, consuming := true, true;
      lastThroughputTime := now;
      Throughput.ReachedStart(config.workers, now);
      model, meter := M.Start(model), Throughput.Start(now);
    }

    /** Another thread puts an event into the worker's queue. */
    ghost method Enqueue(e: Event)
      requires Valid()
      modifies this`model
      ensures Valid() && model == M.Put(old(model), e)
    {
      model := M.Put(model, e);
    }

    /** Worker.h lines 269-292: the throughput and outstanding samples, then the pending exceptions. */
    method PublishStatistics(now: int)
      requires Valid() && Counting() && now >= lastThroughputTime
      modifies this`nThroughput, this`lastThroughputTime, this`throughput, this`outstandingSamples,
               this`exceptionsByType, this`uncaughtByType, this`meter, exceptionsStatistic, uncaughtStatistic
      ensures Valid() && Counting() && Flushed(config.workers, outstanding, old(Accounts()), Accounts(), now)
    {
      Sample(now);
      PublishPending();
    }

    /** Worker.h lines 282-290: both kinds of exceptions. */
    method PublishPending()
      requires Valid() && Counting()
      modifies this`exceptionsByType, this`uncaughtByType, exceptionsStatistic, uncaughtStatistic
      ensures Valid() && Counting() && exceptionsByType == map[] && uncaughtByType == map[]
      ensures exceptionsStatistic.count == old(exceptionsStatistic.count) + SumMap(old(exceptionsByType))
      ensures uncaughtStatistic.count == old(uncaughtStatistic.count) + SumMap(old(uncaughtByType))
      ensures AllAdded(old(exceptionsStatistic.subkeyCount), old(exceptionsByType),
                       exceptionsStatistic.subkeyCount, map[])
      ensures AllAdded(old(uncaughtStatistic.subkeyCount), old(uncaughtByType),
                       uncaughtStatistic.subkeyCount, map[])
    {
      Publish(exceptionsByType, exceptionsStatistic);
      exceptionsByType := map[];
      Publish(uncaughtByType, uncaughtStatistic);
      uncaughtByType := map[];
    }

    method Sample(now: int)
      requires Valid() && now >= lastThroughputTime
      modifies this`nThroughput, this`lastThroughputTime, this`throughput, this`outstandingSamples, this`meter
      ensures Valid() && meter == Throughput.Measured(config.workers, old(meter), now)
      ensures outstandingSamples ==
              if Throughput.Seconds(now - old(lastThroughputTime)) >= 0.1
              then old(outstandingSamples) + [outstanding * config.workers] else old(outstandingSamples)
    {
      var delta := Throughput.Seconds(now - lastThroughputTime);
      GaugeAfterSample(config.workers, meter, now);
      Throughput.ReachedMeasured(config.workers, meter, now);
      meter := Throughput.Measured(config.workers, meter, now);
      if delta >= 0.1 {
        var value := nThroughput as real / delta * config.workers as real;
        assert value == Throughput.Rate(nThroughput, delta, config.workers);
        throughput := throughput + [value];
        nThroughput := 0;
        lastThroughputTime := now;
        outstandingSamples := outstandingSamples + [outstanding * config.workers];
      }
    }

    /** Worker.h lines 228-260: take the next request and the next connection. */
    method Dispatch()
      requires Ready() && Tied()
      modifies this`outstanding, this`connIdx, this`model, workload
      ensures Ready() && Tied() && model == M.Send(config, old(model))
    {
      var request := workload.GetNextRequest();
      M.NextConnectionIsMod(model.connection, config.connections);
      outstanding := outstanding + 1;
      connIdx := (connIdx + 1) % config.connections;
      model := M.Send(config, model);
    }

    /** Worker.h lines 220-267: the limit, the next request, the connection. */
    method TrySend(exhausted: bool) returns (terminated: bool)
      requires Valid() && Counting() && model.pc.Deciding?
      modifies this`running, this`outstanding, this`connIdx, this`model, workload
      ensures Valid() && Counting() && Accounts() == old(Accounts())
      ensures model == Decide(config, old(model), exhausted).(pc := M.Idle)
      ensures terminated <==> old(running) && old(outstanding) < maxOutstanding && exhausted
    {
      terminated := false;
      if outstanding < maxOutstanding && running {
        if exhausted {
          running := false;
          model := M.Exhaust(model).(pc := M.Idle);
          terminated := true;
        } else {
          Dispatch();
          model := model.(pc := M.Idle);
        }
      } else {
        model := M.Drop(model).(pc := M.Idle);
      }
    }

    /** sendRequest. The early return on an exhausted workload publishes nothing. */
    method SendRequest(exhausted: bool, now: int) returns (terminated: bool)
      requires Valid() && Counting() && model.pc.Deciding? && now >= lastThroughputTime
      modifies this, workload, exceptionsStatistic, uncaughtStatistic
      ensures Valid() && Counting()
      ensures model == Decide(config, old(model), exhausted).(pc := M.Idle)
      ensures terminated <==> old(running) && old(outstanding) < maxOutstanding && exhausted
      ensures if terminated then Accounts() == old(Accounts())
              else Flushed(config.workers, outstanding, old(Accounts()), Accounts(), now)
    {
      terminated := TrySend(exhausted);
      if !terminated {
        PublishStatistics(now);
      }
    }

    /** Worker.h lines 184-191: STOP, or any event that finds the worker not running. */
    method Halt(event: Event)
      requires Valid() && Counting() && model.pc == M.Handling(event) && (event.kind == STOP || !running)
      modifies this`running, this`consuming, this`model
      ensures Valid() && Counting() && Accounts() == old(Accounts())
      ensures model == M.Handle(old(model), event).(running := false, pc := M.Idle)
    {
      consuming := false;
      running := false;
      model := M.Handle(model, event).(running := false, pc := M.Idle);
    }

    /** Worker.h lines 192-217 without SEND_REQUEST; an event with the wrong kind of data is ignored. */
    method Configure(event: Event)
      requires Valid() && Counting() && model.pc == M.Handling(event) && running
      requires event.kind in {RESET, SET_MAX_OUTSTANDING, SET_PHASE}
      modifies this`maxOutstanding, this`phase, this`model, workload
      ensures Valid() && Counting() && Accounts() == old(Accounts())
      ensures model == M.Handle(old(model), event)
    {
      if event.kind == RESET {
        workload.Reset();
      } else if event.kind == SET_MAX_OUTSTANDING {
        if event.extraData.Int? {
          maxOutstanding := ToInt32(event.extraData.value);
        }
      } else if event.extraData.Str? {
        phase := event.extraData.text;
      }
      model := M.Handle(model, event);
    }

    /**
     messageAvailable: the fields end up as after all actions of the transition system for
     this event, and the run is terminated exactly when the workload is exhausted. A tick that
     finds the worker running publishes everything, unless it terminates the run; no other
     event touches the accounts.
     */
    method MessageAvailable(event: Event, exhausted: bool, now: int) returns (terminated: bool)
      requires Valid() && Counting()
      requires M.CanTake(model) && event == model.log[model.taken] && now >= lastThroughputTime
      modifies this, workload, exceptionsStatistic, uncaughtStatistic
      ensures Valid() && Counting() && model.pc.Idle?
      ensures model == AfterEvent(config, M.Take(old(model)), event, exhausted)
      ensures terminated <==> Terminates(old(model), event, exhausted)
      ensures if event.kind == SEND_REQUEST && old(running) && !terminated
              then Flushed(config.workers, outstanding, old(Accounts()), Accounts(), now)
              else Accounts() == old(Accounts())
    {
      TakeNext();
      terminated := false;
      if event.kind == STOP || !running {
        Halt(event);
      } else if event.kind == SEND_REQUEST {
        Begin(event);
        terminated := SendRequest(exhausted, now);
      } else {
        Configure(event);
      }
    }

    /** The consumer takes the next event off the queue. */
    ghost method TakeNext()
      requires Valid() && Counting() && M.CanTake(model)
      modifies this`model
      ensures Valid() && Counting() && Accounts() == old(Accounts()) && model == M.Take(old(model))
    {
      model := M.Take(model);
    }

    /** A tick that finds the worker running enters sendRequest. */
    ghost method Begin(event: Event)
      requires Valid() && Counting() && model.pc == M.Handling(event) && running && event.kind == SEND_REQUEST
      modifies this`model
      ensures Valid() && Counting() && Accounts() == old(Accounts())
      ensures model == M.Handle(old(model), event) && model.pc.Deciding?
    {
      model := M.Handle(model, event);
    }

    /** Worker.h lines 238-256: latency, throughput and exceptions of a reply. */
    method CountReply(failure: string, failed: bool, sendTime: int, now: int)
      requires Metered()
      modifies this`latencies, this`nThroughput, this`exceptionsByType, this`meter
      ensures Metered() && meter == Throughput.Apply(config.workers, old(meter), Throughput.Reply)
      ensures exceptionsByType == if failed then Plus(old(exceptionsByType), failure, 1) else old(exceptionsByType)
      ensures latencies ==
              if running then old(latencies) + [(now - sendTime) as real / 1000.0] else old(latencies)
    {
      if running {
        latencies := latencies + [(now - sendTime) as real / 1000.0];
      }
      nThroughput := nThroughput + 1;
      if failed {
        exceptionsByType := Plus(exceptionsByType, failure, 1);
      }
      Throughput.ReachedStep(config.workers, meter, Throughput.Reply);
      meter := Throughput.Apply(config.workers, meter, Throughput.Reply);
    }

    /** The reply callback: one completion, and one exception if the reply failed. */
    method OnReply(id: nat, failure: string, failed: bool, sendTime: int, now: int)
      requires Valid() && M.CanComplete(model, id)
      modifies this`latencies, this`nThroughput, this`exceptionsByType, this`outstanding, this`model, this`meter
      ensures Valid() && model == M.Complete(old(model), id)
      ensures meter == Throughput.Apply(config.workers, old(meter), Throughput.Reply)
      ensures exceptionsByType == if failed then Plus(old(exceptionsByType), failure, 1) else old(exceptionsByType)
      ensures latencies ==
              if running then old(latencies) + [(now - sendTime) as real / 1000.0] else old(latencies)
    {
      CountReply(failure, failed, sendTime, now);
      outstanding := outstanding - 1;
      model := M.Complete(model, id);
    }

    /** The error callback on the workload's own future. */
    method OnUncaughtException(name: string)
      requires Valid()
      modifies this`uncaughtByType
      ensures Valid() && uncaughtByType == Plus(old(uncaughtByType), name, 1)
    {
      uncaughtByType := Plus(uncaughtByType, name, 1);
    }

    /** Worker::stop, as far as the protocol sees it. */
    method Stop()
      requires Valid()
      modifies this`running, this`model
      ensures Valid() && !running && model == M.StopWorker(old(model))
    {
      running := false;
      model := M.StopWorker(model);
    }

    method HasMoreWork() returns (r: bool)
      requires Valid()
      ensures r == M.HasMoreWork(model)
    {
      r := running || outstanding > 0;
    }
  }
}
