/**
 A worker (Worker.h) as a value: the queue it reads, the fields its event thread updates,
 the position of that thread inside messageAvailable and sendRequest, and a history of
 what became of every tick. One action is one access to state that other threads share.
 */
module WorkerModel {
  import opened Arithmetic
  import opened Events
  import opened MemcachedWorkload

  /** The command-line flags that the protocol depends on. */
  datatype Config = Config(
    workers: nat,
    connections: nat,
    keys: int,
    maxOutstanding: int,
    waitForRunnerReady: bool,
    shutdownDelay: int)
  {
    predicate Valid() {
      workers > 0 && connections > 0 && 1 <= keys <= INT_MAX
    }
  }

  /** Where the event thread is: between events, or at a line of messageAvailable or sendRequest. */
  datatype WorkerPc =
    | Idle                 // in the event loop
    | Handling(e: Event)   // event taken off the queue, before the test of running_
    | Halting              // consuming stopped, before running_.store(false)
    | Deciding             // in sendRequest, before the test of the limit and of running_
    | Sending              // test passed, before getNextRequest
    | Terminating          // workload exhausted, running_ is false, before terminate_early_fn_
    | Publishing           // request sent or dropped, before the statistics are published

  datatype Outcome = Sent(request: Request) | Dropped | Exhausted
  datatype OutcomeKind = SENT | DROPPED | EXHAUSTED

  function KindOf(o: Outcome): OutcomeKind {
    match o
    case Sent(_) => SENT
    case Dropped => DROPPED
    case Exhausted => EXHAUSTED
  }

  datatype Worker = Worker(
    log: seq<Event>,               // everything ever put into the queue
    taken: nat,                    // how many of them the consumer took
    live: nat,                     // how many of them were handled while running
    started: bool,
    running: bool,
    consuming: bool,
    pc: WorkerPc,
    limit: int,                    // max_outstanding_requests_
    atLimitChange: int,            // outstanding requests when the limit was last set
    outstanding: int,              // outstanding_requests_
    sent: nat,                     // requests sent; request number k has id k
    inFlight: set<nat>,
    completed: set<nat>,
    connection: nat,               // conn_idx_
    perConnection: seq<nat>,       // requests sent on each connection
    workload: Workload,
    phase: string,
    outcomes: seq<seq<Outcome>>,   // per RESET handled: what became of each tick
    discarded: nat)                // ticks taken while not running

  function Put(w: Worker, e: Event): Worker {
    w.(log := w.log + [e])
  }

  // ---------- Actions of the event thread ----------

  predicate CanTake(w: Worker) {
    w.started && w.consuming && w.pc.Idle? && w.taken < |w.log|
  }

  function Take(w: Worker): Worker
    requires w.taken < |w.log|
  {
    w.(pc := Handling(w.log[w.taken]), taken := w.taken + 1)
  }

  /** What became of the current tick; it belongs to the epoch of the last RESET handled. */
  function Record(outcomes: seq<seq<Outcome>>, o: Outcome): seq<seq<Outcome>> {
    if outcomes == [] then [[o]]
    else outcomes[|outcomes| - 1 := outcomes[|outcomes| - 1] + [o]]
  }

  function Settled(w: Worker): Worker {
    w.(pc := Idle, live := w.live + 1)
  }

  /** messageAvailable up to sendRequest. */
  function Handle(w: Worker, e: Event): Worker {
    if e.kind == STOP || !w.running then
      w.(consuming := false, pc := Halting,
         discarded := w.discarded + if e.kind == SEND_REQUEST then 1 else 0)
    else
      match e.kind
      case RESET => Settled(w.(workload := ResetIndex(w.workload), outcomes := w.outcomes + [[]]))
      case SEND_REQUEST => w.(pc := Deciding)
      case SET_MAX_OUTSTANDING =>
        if e.extraData.Int?
        then Settled(w.(limit := ToInt32(e.extraData.value), atLimitChange := w.outstanding))
        else Settled(w)
      case SET_PHASE =>
        if e.extraData.Str? then Settled(w.(phase := e.extraData.text)) else Settled(w)
  }

  function Drop(w: Worker): Worker {
    w.(pc := Publishing, live := w.live + 1, outcomes := Record(w.outcomes, Dropped))
  }

  function Exhaust(w: Worker): Worker {
    w.(pc := Terminating, live := w.live + 1, running := false, outcomes := Record(w.outcomes, Exhausted))
  }

  /** The connection after `connection`, going round. */
  function NextConnection(connection: nat, connections: nat): nat {
    if connection + 1 == connections then 0 else connection + 1
  }

  lemma NextConnectionIsMod(connection: nat, connections: nat)
    requires connection < connections
    ensures NextConnection(connection, connections) == (connection + 1) % connections < connections
  {
    if connection + 1 == connections {
      DivModUnique(connections, connections, 1, 0);
    } else {
      DivModUnique(connection + 1, connections, 0, connection + 1);
    }
  }

  function Send(c: Config, w: Worker): Worker
    requires c.Valid() && |w.perConnection| == c.connections && w.connection < c.connections
  {
    var (workload, request) := NextRequest(w.workload, c.keys);
    w.(pc := Publishing, live := w.live + 1,
       workload := workload, outcomes := Record(w.outcomes, Sent(request)),
       outstanding := w.outstanding + 1, sent := w.sent + 1, inFlight := w.inFlight + {w.sent},
       connection := NextConnection(w.connection, c.connections),
       perConnection := w.perConnection[w.connection := w.perConnection[w.connection] + 1])
  }

  /** The next action at the thread's position; `exhausted` says that getNextRequest returns nothing. */
  function Act(c: Config, w: Worker, exhausted: bool): (w': Worker)
    requires c.Valid() && |w.perConnection| == c.connections && w.connection < c.connections
    ensures |w'.perConnection| == c.connections && w'.connection < c.connections
    ensures w'.log == w.log && w'.taken == w.taken && w'.started == w.started
  {
    match w.pc
    case Idle => w
    case Handling(e) => Handle(w, e)
    case Halting => w.(running := false, pc := Idle)
    case Deciding => if w.outstanding < w.limit && w.running then w.(pc := Sending) else Drop(w)
    case Sending => if exhausted then Exhaust(w) else Send(c, w)
    case Terminating => w.(pc := Idle)
    case Publishing => w.(pc := Idle)
  }

  /** The reply callback, which runs on the event thread: from the event loop or inline after a send. */
  predicate CanComplete(w: Worker, id: nat) {
    id in w.inFlight && (w.pc.Idle? || w.pc.Publishing?)
  }

  function Complete(w: Worker, id: nat): Worker {
    w.(inFlight := w.inFlight - {id}, completed := w.completed + {id}, outstanding := w.outstanding - 1)
  }

  // ---------- Actions of the runner ----------

  function Start(w: Worker): Worker {
    w.(started := true, running := true, consuming := true)
  }

  function StopWorker(w: Worker): Worker {
    w.(running := false)
  }

  /** hasMoreWork, if its two reads saw the same state. */
  predicate HasMoreWork(w: Worker) {
    w.running || w.outstanding > 0
  }

  /** Not running, nothing outstanding and no send under way. */
  predicate Quiet(w: Worker) {
    !w.running && w.outstanding == 0 && !w.pc.Sending?
  }

  // ---------- Tallies over the history ----------

  function Tally(kind: OutcomeKind, os: seq<Outcome>): (r: nat)
    ensures r <= |os|
  {
    if os == [] then 0
    else Tally(kind, os[..|os| - 1]) + if KindOf(os[|os| - 1]) == kind then 1 else 0
  }

  function TotalTally(kind: OutcomeKind, outcomes: seq<seq<Outcome>>): nat {
    if outcomes == [] then 0
    else TotalTally(kind, outcomes[..|outcomes| - 1]) + Tally(kind, outcomes[|outcomes| - 1])
  }

  function Lengths(outcomes: seq<seq<Outcome>>): (r: seq<nat>)
    ensures |r| == |outcomes|
  {
    seq(|outcomes|, e requires 0 <= e < |outcomes| => |outcomes[e]|)
  }

  lemma TallyAppend(kind: OutcomeKind, os: seq<Outcome>, o: Outcome)
    ensures Tally(kind, os + [o]) == Tally(kind, os) + if KindOf(o) == kind then 1 else 0
  {
    assert (os + [o])[..|os|] == os;
  }

  lemma TotalTallyRecord(kind: OutcomeKind, outcomes: seq<seq<Outcome>>, o: Outcome)
    ensures TotalTally(kind, Record(outcomes, o)) ==
            TotalTally(kind, outcomes) + if KindOf(o) == kind then 1 else 0
  {
    if outcomes == [] {
      TallyAppend(kind, [], o);
      assert [] + [o] == [o];
      assert [[o]][..0] == [];
    } else {
      var l := |outcomes| - 1;
      TallyAppend(kind, outcomes[l], o);
      assert Record(outcomes, o)[..l] == outcomes[..l];
    }
  }

  lemma TotalTallyReset(kind: OutcomeKind, outcomes: seq<seq<Outcome>>)
    ensures TotalTally(kind, outcomes + [[]]) == TotalTally(kind, outcomes)
  {
    assert (outcomes + [[]])[..|outcomes|] == outcomes;
  }

  lemma {:induction false} TalliesAddUp(os: seq<Outcome>)
    ensures Tally(SENT, os) + Tally(DROPPED, os) + Tally(EXHAUSTED, os) == |os|
  {
    if os == [] {
    } else {
      TalliesAddUp(os[..|os| - 1]);
    }
  }

  lemma {:induction false} TotalTalliesAddUp(outcomes: seq<seq<Outcome>>)
    ensures TotalTally(SENT, outcomes) + TotalTally(DROPPED, outcomes) + TotalTally(EXHAUSTED, outcomes)
            == Sum(Lengths(outcomes))
  {
    if outcomes == [] {
    } else {
      var front := outcomes[..|outcomes| - 1];
      TotalTalliesAddUp(front);
      TalliesAddUp(outcomes[|outcomes| - 1]);
      assert Lengths(outcomes)[..|front|] == Lengths(front);
    }
  }

  lemma LengthsRecord(outcomes: seq<seq<Outcome>>, o: Outcome)
    requires outcomes != []
    ensures
      var ks := Lengths(outcomes);
      Lengths(Record(outcomes, o)) == ks[|ks| - 1 := ks[|ks| - 1] + 1]
  {
  }

  lemma LengthsReset(outcomes: seq<seq<Outcome>>)
    ensures Lengths(outcomes + [[]]) == Lengths(outcomes) + [0]
  {
  }

  // ---------- The requests issued ----------

  function RequestsIn(os: seq<Outcome>): seq<Request> {
    if os == [] then []
    else RequestsIn(os[..|os| - 1]) + if os[|os| - 1].Sent? then [os[|os| - 1].request] else []
  }

  /** All requests a worker has sent, in order. */
  function Issued(outcomes: seq<seq<Outcome>>): seq<Request> {
    if outcomes == [] then [] else Issued(outcomes[..|outcomes| - 1]) + RequestsIn(outcomes[|outcomes| - 1])
  }

  lemma IssuedRecord(outcomes: seq<seq<Outcome>>, o: Outcome)
    ensures Issued(Record(outcomes, o)) == if o.Sent? then Issued(outcomes) + [o.request] else Issued(outcomes)
  {
    var outcomes' := Record(outcomes, o);
    if outcomes == [] {
      assert [o][..0] == [] && outcomes'[..0] == [];
      assert RequestsIn([o]) == if o.Sent? then [o.request] else [];
    } else {
      var l := |outcomes| - 1;
      assert outcomes'[..l] == outcomes[..l];
      assert (outcomes[l] + [o])[..|outcomes[l]|] == outcomes[l];
    }
  }

  lemma IssuedReset(outcomes: seq<seq<Outcome>>)
    ensures Issued(outcomes + [[]]) == Issued(outcomes)
  {
    assert (outcomes + [[]])[..|outcomes|] == outcomes;
  }
}
