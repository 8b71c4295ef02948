/**
 What every action keeps true of one worker, in four independent parts: the counters, the
 position in the queue, the history of ticks, and the keys asked for.
 */
module WorkerInvariant {
  import opened Arithmetic
  import opened Events
  import opened Dealing
  import opened MemcachedWorkload
  import opened WorkerModel

  // ---------- Counters ----------

  ghost predicate Counters(c: Config, w: Worker)
    requires c.Valid()
  {
    && w.outstanding == |w.inFlight|
    && |w.inFlight| + |w.completed| == w.sent
    && w.inFlight !! w.completed
    && (forall id :: id in w.inFlight || id in w.completed <==> 0 <= id < w.sent)
    && w.sent == TotalTally(SENT, w.outcomes)
    && |w.perConnection| == c.connections
    && w.connection == Pointer(w.sent, c.connections) < c.connections
    && (forall j :: 0 <= j < c.connections ==> w.perConnection[j] == Dealt(w.sent, c.connections, j))
  }

  lemma CountersFrame(c: Config, w: Worker, w': Worker)
    requires c.Valid() && Counters(c, w)
    requires w'.outstanding == w.outstanding && w'.inFlight == w.inFlight && w'.completed == w.completed
    requires w'.sent == w.sent && w'.connection == w.connection && w'.perConnection == w.perConnection
    requires TotalTally(SENT, w'.outcomes) == TotalTally(SENT, w.outcomes)
    ensures Counters(c, w')
  {
  }

  /** Handling an event leaves the counters alone; the history grows only by a RESET. */
  lemma HandleFields(w: Worker, e: Event)
    ensures
      var w' := Handle(w, e);
      && w'.outstanding == w.outstanding && w'.inFlight == w.inFlight && w'.completed == w.completed
      && w'.sent == w.sent && w'.connection == w.connection && w'.perConnection == w.perConnection
      && (|| (w'.workload == w.workload && w'.outcomes == w.outcomes)
          || (w'.workload == ResetIndex(w.workload) && w'.outcomes == w.outcomes + [[]]))
  {
  }

  lemma CountersOnHandle(c: Config, w: Worker, e: Event)
    requires c.Valid() && Counters(c, w)
    ensures Counters(c, Handle(w, e))
  {
    HandleFields(w, e);
    TotalTallyReset(SENT, w.outcomes);
    CountersFrame(c, w, Handle(w, e));
  }

  lemma CountersOnRecord(c: Config, w: Worker)
    requires c.Valid() && Counters(c, w)
    ensures Counters(c, Drop(w)) && Counters(c, Exhaust(w))
  {
    TotalTallyRecord(SENT, w.outcomes, Dropped);
    TotalTallyRecord(SENT, w.outcomes, Exhausted);
  }

  lemma CountersOnSend(c: Config, w: Worker)
    requires c.Valid() && Counters(c, w)
    ensures Counters(c, Send(c, w))
  {
    TotalTallyRecord(SENT, w.outcomes, Sent(NextRequest(w.workload, c.keys).1));
    PointerInRange(w.sent + 1, c.connections);
    assert w.sent !in w.inFlight && w.sent !in w.completed;
    assert |w.inFlight + {w.sent}| == |w.inFlight| + 1;
  }

  lemma CountersStep(c: Config, w: Worker, exhausted: bool)
    requires c.Valid() && Counters(c, w)
    ensures Counters(c, Act(c, w, exhausted))
  {
    match w.pc
    case Handling(e) =>
      CountersOnHandle(c, w, e);
    case Deciding =>
      CountersOnRecord(c, w);
    case Sending =>
      if exhausted {
        CountersOnRecord(c, w);
      } else {
        CountersOnSend(c, w);
      }
    case _ =>
  }

  lemma CountersComplete(c: Config, w: Worker, id: nat)
    requires c.Valid() && Counters(c, w) && CanComplete(w, id)
    ensures Counters(c, Complete(w, id))
  {
  }

  // ---------- The limit ----------

  /** Outstanding requests exceed the limit only by what was outstanding when the limit was set. */
  ghost predicate WithinLimit(w: Worker) {
    && 0 <= w.outstanding <= Max(w.limit, w.atLimitChange)
    && (w.pc.Sending? ==> w.outstanding < w.limit)
  }

  lemma WithinLimitOnHandle(w: Worker, e: Event)
    requires WithinLimit(w)
    ensures WithinLimit(Handle(w, e))
  {
  }

  lemma WithinLimitStep(c: Config, w: Worker, exhausted: bool)
    requires c.Valid() && |w.perConnection| == c.connections && w.connection < c.connections && WithinLimit(w)
    ensures WithinLimit(Act(c, w, exhausted))
  {
    match w.pc
    case Handling(e) => WithinLimitOnHandle(w, e);
    case _ =>
  }

  // ---------- Position in the queue ----------

  predicate InHand(w: Worker) {
    w.pc.Handling? || w.pc.Deciding? || w.pc.Sending?
  }

  /** Where the event thread is, in terms of the log. */
  ghost predicate Position(w: Worker) {
    && w.taken <= |w.log|
    && w.taken == w.live + (if InHand(w) || (w.started && !w.consuming) then 1 else 0)
    && (!w.started ==> w.pc.Idle? && w.taken == 0 && !w.running)
    && (w.started && !w.consuming ==> w.pc.Idle? || w.pc.Halting?)
    && (w.pc.Halting? ==> w.started && !w.consuming)
    && (w.pc.Handling? ==> w.pc.e == w.log[w.live])
    && (w.pc.Deciding? || w.pc.Sending? ==> w.log[w.live].kind == SEND_REQUEST)
    && w.discarded == if w.started && !w.consuming && w.log[w.live].kind == SEND_REQUEST then 1 else 0
  }

  /** The limit and the phase are the last ones in the part of the queue handled so far. */
  ghost predicate Settings(initialLimit: int, w: Worker)
    requires Position(w)
  {
    && w.limit == LimitAfter(initialLimit, w.log[..w.live])
    && w.phase == PhaseAfter(w.log[..w.live])
    && (NoLimitChange(w.log[..w.live]) ==> w.atLimitChange == 0)
  }

  lemma PositionOnHandle(w: Worker, e: Event)
    requires Position(w) && w.pc == Handling(e)
    ensures Position(Handle(w, e))
  {
  }

  lemma PositionStep(c: Config, w: Worker, exhausted: bool)
    requires c.Valid() && |w.perConnection| == c.connections && w.connection < c.connections && Position(w)
    ensures Position(Act(c, w, exhausted))
  {
    match w.pc
    case Handling(e) => PositionOnHandle(w, e);
    case _ =>
  }

  lemma SettingsOnHandle(initialLimit: int, w: Worker, e: Event)
    requires Position(w) && Settings(initialLimit, w) && w.pc == Handling(e)
    ensures Position(Handle(w, e)) && Settings(initialLimit, Handle(w, e))
  {
    var prefix := w.log[..w.live + 1];
    assert prefix[..|prefix| - 1] == w.log[..w.live];
    assert prefix[w.live] == e;
  }

  /** Consuming a tick changes no setting. */
  lemma SettingsOnTick(initialLimit: int, w: Worker, w': Worker)
    requires Position(w) && Settings(initialLimit, w) && (w.pc.Deciding? || w.pc.Sending?)
    requires Position(w') && w'.log == w.log && w'.live == w.live + 1
    requires w'.limit == w.limit && w'.phase == w.phase && w'.atLimitChange == w.atLimitChange
    ensures Settings(initialLimit, w')
  {
    var prefix := w.log[..w.live + 1];
    assert prefix[..|prefix| - 1] == w.log[..w.live];
    assert NoLimitChange(prefix) ==> NoLimitChange(w.log[..w.live]);
  }

  lemma SettingsStep(c: Config, initialLimit: int, w: Worker, exhausted: bool)
    requires c.Valid() && |w.perConnection| == c.connections && w.connection < c.connections
    requires Position(w) && Settings(initialLimit, w)
    ensures Position(Act(c, w, exhausted)) && Settings(initialLimit, Act(c, w, exhausted))
  {
    PositionStep(c, w, exhausted);
    match w.pc
    case Handling(e) => SettingsOnHandle(initialLimit, w, e);
    case Deciding => SettingsOnTick(initialLimit, w, Drop(w).(pc := Publishing));
    case Sending => SettingsOnTick(initialLimit, w, Act(c, w, exhausted));
    case _ =>
  }

  // ---------- The history of ticks ----------

  /** The RESETs and ticks handled so far are exactly those of the history. */
  ghost predicate History(w: Worker)
    requires Position(w)
  {
    SchedulerPart(w.log[..w.live]) == Shape(Lengths(w.outcomes))
  }

  lemma HistoryOnRecord(w: Worker, o: Outcome)
    requires Position(w) && History(w) && Grammatical(w.log)
    requires w.pc.Deciding? || w.pc.Sending?
    ensures w.outcomes != []
    ensures SchedulerPart(w.log[..w.live + 1]) == Shape(Lengths(Record(w.outcomes, o)))
  {
    GrammaticalNext(w.log, w.live, Lengths(w.outcomes));
    LengthsRecord(w.outcomes, o);
    ShapeTick(Lengths(w.outcomes));
  }

  lemma HistoryOnHandle(w: Worker, e: Event)
    requires Position(w) && History(w) && Grammatical(w.log) && w.pc == Handling(e)
    requires Position(Handle(w, e))
    ensures History(Handle(w, e))
  {
    GrammaticalNext(w.log, w.live, Lengths(w.outcomes));
    if e.kind == RESET {
      LengthsReset(w.outcomes);
      ShapeNewEpoch(Lengths(w.outcomes));
    } else if !FromScheduler(e) {
      assert Shape(Lengths(w.outcomes)) + [] == Shape(Lengths(w.outcomes));
    }
  }

  lemma HistoryStep(c: Config, w: Worker, exhausted: bool)
    requires c.Valid() && |w.perConnection| == c.connections && w.connection < c.connections
    requires Position(w) && History(w) && Grammatical(w.log)
    ensures Position(Act(c, w, exhausted)) && History(Act(c, w, exhausted))
  {
    PositionStep(c, w, exhausted);
    match w.pc
    case Handling(e) =>
      HistoryOnHandle(w, e);
    case Deciding =>
      HistoryOnRecord(w, Dropped);
    case Sending =>
      HistoryOnRecord(w, if exhausted then Exhausted else Sent(NextRequest(w.workload, c.keys).1));
    case _ =>
  }

  // ---------- Keys ----------

  /** An accepted request asks for the key numbered by the requests accepted before it since the RESET. */
  ghost predicate CyclicKeys(os: seq<Outcome>, keys: int)
    requires keys >= 1
  {
    forall a :: 0 <= a < |os| && os[a].Sent? ==> os[a].request.key == Tally(SENT, os[..a]) % keys
  }

  ghost predicate Keys(c: Config, w: Worker)
    requires c.Valid()
  {
    && 0 <= w.workload.index <= c.keys
    && (forall e :: 0 <= e < |w.outcomes| ==> CyclicKeys(w.outcomes[e], c.keys))
    && (w.outcomes != [] ==>
          w.workload.index % c.keys == Tally(SENT, w.outcomes[|w.outcomes| - 1]) % c.keys)
  }

  lemma CyclicKeysAppend(os: seq<Outcome>, o: Outcome, keys: int)
    requires keys >= 1 && CyclicKeys(os, keys)
    requires o.Sent? ==> o.request.key == Tally(SENT, os) % keys
    ensures CyclicKeys(os + [o], keys)
  {
    var os' := os + [o];
    forall a | 0 <= a < |os'| && os'[a].Sent?
      ensures os'[a].request.key == Tally(SENT, os'[..a]) % keys
    {
      if a == |os| {
        assert os'[..a] == os;
      } else {
        assert os'[..a] == os[..a];
      }
    }
  }

  lemma KeysOnRecord(c: Config, outcomes: seq<seq<Outcome>>, o: Outcome)
    requires c.Valid() && outcomes != []
    requires forall e :: 0 <= e < |outcomes| ==> CyclicKeys(outcomes[e], c.keys)
    requires o.Sent? ==> o.request.key == Tally(SENT, outcomes[|outcomes| - 1]) % c.keys
    ensures
      var outcomes' := Record(outcomes, o);
      && (forall e :: 0 <= e < |outcomes'| ==> CyclicKeys(outcomes'[e], c.keys))
      && Tally(SENT, outcomes'[|outcomes'| - 1]) ==
         Tally(SENT, outcomes[|outcomes| - 1]) + if o.Sent? then 1 else 0
  {
    CyclicKeysAppend(outcomes[|outcomes| - 1], o, c.keys);
    TallyAppend(SENT, outcomes[|outcomes| - 1], o);
  }

  lemma KeysOnHandle(c: Config, w: Worker, e: Event)
    requires c.Valid() && Keys(c, w)
    ensures Keys(c, Handle(w, e))
  {
    assert Tally(SENT, []) == 0;
  }

  lemma KeysOnSend(c: Config, w: Worker)
    requires c.Valid() && |w.perConnection| == c.connections && w.connection < c.connections
    requires Keys(c, w) && w.outcomes != []
    ensures Keys(c, Send(c, w))
  {
    var accepted := Tally(SENT, w.outcomes[|w.outcomes| - 1]);
    CyclicIndex(w.workload.index, c.keys, accepted);
    KeysOnRecord(c, w.outcomes, Sent(NextRequest(w.workload, c.keys).1));
  }

  lemma KeysStep(c: Config, w: Worker, exhausted: bool)
    requires c.Valid() && |w.perConnection| == c.connections && w.connection < c.connections
    requires Position(w) && History(w) && Grammatical(w.log) && Keys(c, w)
    ensures Keys(c, Act(c, w, exhausted))
  {
    match w.pc
    case Handling(e) =>
      KeysOnHandle(c, w, e);
    case Deciding =>
      HistoryOnRecord(w, Dropped);
      KeysOnRecord(c, w.outcomes, Dropped);
    case Sending =>
      HistoryOnRecord(w, Exhausted);
      if exhausted {
        KeysOnRecord(c, w.outcomes, Exhausted);
      } else {
        KeysOnSend(c, w);
      }
    case _ =>
  }

  // ---------- Requests ----------

  /** The requests sent are SETs of every key and then GETs, as the workload promises. */
  ghost predicate Requests(c: Config, w: Worker) {
    Consistent(w.workload, Issued(w.outcomes), c.keys)
  }

  lemma RequestsOnReset(c: Config, w: Worker, w': Worker)
    requires c.Valid() && Requests(c, w)
    requires || (w'.workload == w.workload && w'.outcomes == w.outcomes)
             || (w'.workload == ResetIndex(w.workload) && w'.outcomes == w.outcomes + [[]])
    ensures Requests(c, w')
  {
    IssuedReset(w.outcomes);
    ResetKeepsConsistent(w.workload, Issued(w.outcomes), c.keys);
  }

  lemma RequestsOnSend(c: Config, w: Worker)
    requires c.Valid() && |w.perConnection| == c.connections && w.connection < c.connections && Requests(c, w)
    ensures Requests(c, Send(c, w))
  {
    IssuedRecord(w.outcomes, Sent(NextRequest(w.workload, c.keys).1));
    NextKeepsConsistent(w.workload, Issued(w.outcomes), c.keys);
  }

  lemma RequestsStep(c: Config, w: Worker, exhausted: bool)
    requires c.Valid() && |w.perConnection| == c.connections && w.connection < c.connections && Requests(c, w)
    ensures Requests(c, Act(c, w, exhausted))
  {
    match w.pc
    case Handling(e) =>
      HandleFields(w, e);
      RequestsOnReset(c, w, Handle(w, e));
    case Deciding => IssuedRecord(w.outcomes, Dropped);
    case Sending =>
      if exhausted {
        IssuedRecord(w.outcomes, Exhausted);
      } else {
        RequestsOnSend(c, w);
      }
    case _ =>
  }

  // ---------- Together ----------

  ghost predicate WorkerInv(c: Config, initialLimit: int, w: Worker)
    requires c.Valid()
  {
    && Counters(c, w)
    && WithinLimit(w)
    && Position(w)
    && Settings(initialLimit, w)
    && History(w)
    && Keys(c, w)
    && Requests(c, w)
  }

  lemma WorkerInvAct(c: Config, initialLimit: int, w: Worker, exhausted: bool)
    requires c.Valid() && WorkerInv(c, initialLimit, w) && Grammatical(w.log)
    ensures WorkerInv(c, initialLimit, Act(c, w, exhausted))
  {
    CountersStep(c, w, exhausted);
    WithinLimitStep(c, w, exhausted);
    SettingsStep(c, initialLimit, w, exhausted);
    HistoryStep(c, w, exhausted);
    KeysStep(c, w, exhausted);
    RequestsStep(c, w, exhausted);
  }

  lemma WorkerInvTake(c: Config, initialLimit: int, w: Worker)
    requires c.Valid() && WorkerInv(c, initialLimit, w) && CanTake(w)
    ensures WorkerInv(c, initialLimit, Take(w))
  {
  }

  lemma WorkerInvComplete(c: Config, initialLimit: int, w: Worker, id: nat)
    requires c.Valid() && WorkerInv(c, initialLimit, w) && CanComplete(w, id)
    ensures WorkerInv(c, initialLimit, Complete(w, id))
  {
    CountersComplete(c, w, id);
  }

  lemma WorkerInvPut(c: Config, initialLimit: int, w: Worker, e: Event)
    requires c.Valid() && WorkerInv(c, initialLimit, w)
    ensures WorkerInv(c, initialLimit, Put(w, e))
  {
    assert (w.log + [e])[..w.live] == w.log[..w.live];
  }
}
