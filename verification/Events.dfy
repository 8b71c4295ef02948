/**
 The events that travel from the scheduler and the control threads to the workers
 (Event.h), the run states of the scheduler (Scheduler.h), and the sequence
 functions with which queue contents are described.
 */
module Events {

  datatype RunState = RUNNING | PAUSED | STOPPING

  datatype EventType = STOP | RESET | SEND_REQUEST | SET_PHASE | SET_MAX_OUTSTANDING

  /** The payloads of folly::dynamic that an event can carry. */
  datatype Dynamic = Null | Int(value: int) | Str(text: string)

  datatype Event = Event(kind: EventType, extraData: Dynamic)

  const RESET_EVENT := Event(RESET, Null)
  const SEND_EVENT := Event(SEND_REQUEST, Null)
  const STOP_EVENT := Event(STOP, Null)

  /** Only Scheduler::loop puts these three kinds; only control threads put the other two. */
  predicate FromScheduler(e: Event) {
    e.kind in {STOP, RESET, SEND_REQUEST}
  }

  function Last<T>(s: seq<T>): T
    requires |s| > 0
  {
    s[|s| - 1]
  }

  // ---------- 32-bit conversions (Scheduler.h keeps the limit in a uint32_t) ----------

  const TWO_32 := 0x1_0000_0000

  predicate IsInt32(v: int) {
    -0x8000_0000 <= v < 0x8000_0000
  }

  function ToUint32(v: int): (r: int)
    ensures 0 <= r < TWO_32
    ensures 0 <= v < TWO_32 ==> r == v
    ensures -TWO_32 <= v < 0 ==> r == v + TWO_32
  {
    v % TWO_32
  }

  function ToInt32(v: int): (r: int)
    ensures IsInt32(r)
    ensures IsInt32(v) ==> r == v
  {
    var u := v % TWO_32;
    if u < 0x8000_0000 then u else u - TWO_32
  }

  /** A limit survives the trip int32_t -> uint32_t -> dynamic int -> int32_t, negative ones included. */
  lemma LimitRoundTrip(v: int)
    requires IsInt32(v)
    ensures ToInt32(ToUint32(v)) == v
  {
  }

  // ---------- What the scheduler thread contributed to a queue ----------

  /** The events of `log` that the scheduler thread put there, in order. */
  function SchedulerPart(log: seq<Event>): seq<Event> {
    if log == [] then []
    else SchedulerPart(log[..|log| - 1]) + if FromScheduler(log[|log| - 1]) then [log[|log| - 1]] else []
  }

  lemma PartAppend(log: seq<Event>, e: Event)
    ensures SchedulerPart(log + [e]) == SchedulerPart(log) + if FromScheduler(e) then [e] else []
  {
    assert (log + [e])[..|log|] == log;
  }

  lemma ForeignPut(log: seq<Event>, e: Event)
    requires !FromScheduler(e)
    ensures SchedulerPart(log + [e]) == SchedulerPart(log)
  {
    PartAppend(log, e);
  }

  lemma {:induction false} PartOfPrefix(log: seq<Event>, k: nat)
    requires k <= |log|
    ensures SchedulerPart(log[..k]) <= SchedulerPart(log)
  {
    if k == |log| {
      assert log[..k] == log;
    } else {
      var front := log[..|log| - 1];
      PartOfPrefix(front, k);
      assert front[..k] == log[..k];
    }
  }

  lemma {:induction false} PartKeepsMembers(log: seq<Event>, e: Event)
    requires FromScheduler(e)
    ensures e in log <==> e in SchedulerPart(log)
  {
    if log == [] {
    } else {
      var front := log[..|log| - 1];
      PartKeepsMembers(front, e);
      assert log == front + [log[|log| - 1]];
    }
  }

  // ---------- Epochs: RESET followed by some number of SEND_REQUESTs ----------

  function Sends(k: nat): (r: seq<Event>)
    ensures |r| == k
  {
    seq(k, _ => SEND_EVENT)
  }

  /** One RESET per entry, each followed by as many SEND_REQUESTs as the entry says. */
  function Shape(ks: seq<nat>): seq<Event> {
    if ks == [] then []
    else Shape(ks[..|ks| - 1]) + [RESET_EVENT] + Sends(ks[|ks| - 1])
  }

  lemma ShapeNewEpoch(ks: seq<nat>)
    ensures Shape(ks + [0]) == Shape(ks) + [RESET_EVENT]
  {
    assert (ks + [0])[..|ks|] == ks;
  }

  lemma ShapeTick(ks: seq<nat>)
    requires ks != []
    ensures Shape(ks[|ks| - 1 := ks[|ks| - 1] + 1]) == Shape(ks) + [SEND_EVENT]
  {
    var l := |ks| - 1;
    var ks' := ks[l := ks[l] + 1];
    assert ks'[..l] == ks[..l];
    assert Sends(ks[l] + 1) == Sends(ks[l]) + [SEND_EVENT];
  }

  lemma {:induction false} ShapeHasNoStop(ks: seq<nat>)
    ensures STOP_EVENT !in Shape(ks)
  {
    if ks == [] {
    } else {
      ShapeHasNoStop(ks[..|ks| - 1]);
    }
  }

  /**
   The grammar (RESET SEND_REQUEST*)+ STOP as an automaton: state 0 expects the first
   RESET, state 1 is inside an epoch, state 2 has seen the STOP, state 3 is an error.
   */
  function Automaton(part: seq<Event>): (q: nat) {
    if part == [] then 0
    else
      var q := Automaton(part[..|part| - 1]);
      var e := part[|part| - 1];
      if q == 0 then if e == RESET_EVENT then 1 else 3
      else if q == 1 then
        if e == RESET_EVENT || e == SEND_EVENT then 1 else if e == STOP_EVENT then 2 else 3
      else 3
  }

  lemma AutomatonStep(part: seq<Event>, e: Event)
    ensures
      var q := Automaton(part);
      Automaton(part + [e]) ==
      if q == 0 then if e == RESET_EVENT then 1 else 3
      else if q == 1 then
        if e == RESET_EVENT || e == SEND_EVENT then 1 else if e == STOP_EVENT then 2 else 3
      else 3
  {
    assert (part + [e])[..|part|] == part;
  }

  lemma {:induction false} AutomatonOnSends(part: seq<Event>, k: nat)
    requires Automaton(part) == 1
    ensures Automaton(part + Sends(k)) == 1
  {
    if k == 0 {
      assert part + Sends(0) == part;
    } else {
      AutomatonOnSends(part, k - 1);
      assert part + Sends(k) == (part + Sends(k - 1)) + [SEND_EVENT];
      AutomatonStep(part + Sends(k - 1), SEND_EVENT);
    }
  }

  lemma {:induction false} AutomatonOnShape(ks: seq<nat>)
    ensures Automaton(Shape(ks)) == if ks == [] then 0 else 1
  {
    if ks == [] {
    } else {
      var front := ks[..|ks| - 1];
      AutomatonOnShape(front);
      AutomatonStep(Shape(front), RESET_EVENT);
      AutomatonOnSends(Shape(front) + [RESET_EVENT], ks[|ks| - 1]);
    }
  }

  lemma {:induction false} AutomatonPrefix(part: seq<Event>, k: nat)
    requires k <= |part| && Automaton(part) != 3
    ensures Automaton(part[..k]) != 3
  {
    if k == |part| {
      assert part[..k] == part;
    } else {
      var front := part[..|part| - 1];
      AutomatonPrefix(front, k);
      assert front[..k] == part[..k];
    }
  }

  /** The scheduler thread's contribution to a queue has followed the grammar so far. */
  predicate Grammatical(log: seq<Event>) {
    Automaton(SchedulerPart(log)) != 3
  }

  /** In a grammatical log, a complete run of epochs is continued by RESET, by STOP, or inside an epoch by SEND_REQUEST. */
  lemma GrammaticalNext(log: seq<Event>, k: nat, ks: seq<nat>)
    requires Grammatical(log) && k < |log|
    requires SchedulerPart(log[..k]) == Shape(ks)
    ensures log[k].kind.RESET? ==> log[k] == RESET_EVENT
    ensures log[k].kind.STOP? ==> log[k] == STOP_EVENT
    ensures log[k].kind.SEND_REQUEST? ==> log[k] == SEND_EVENT && ks != []
    ensures SchedulerPart(log[..k + 1]) == Shape(ks) + if FromScheduler(log[k]) then [log[k]] else []
  {
    assert log[..k + 1] == log[..k] + [log[k]];
    PartAppend(log[..k], log[k]);
    PartOfPrefix(log, k + 1);
    var part := SchedulerPart(log[..k + 1]);
    AutomatonPrefix(SchedulerPart(log), |part|);
    assert SchedulerPart(log)[..|part|] == part;
    AutomatonOnShape(ks);
    AutomatonStep(Shape(ks), log[k]);
  }

  function Count(kind: EventType, log: seq<Event>): nat {
    if log == [] then 0
    else Count(kind, log[..|log| - 1]) + if log[|log| - 1].kind == kind then 1 else 0
  }

  lemma {:induction false} CountConcat(kind: EventType, a: seq<Event>, b: seq<Event>)
    ensures Count(kind, a + b) == Count(kind, a) + Count(kind, b)
  {
    if b == [] {
      assert a + b == a;
    } else {
      CountConcat(kind, a, b[..|b| - 1]);
      assert (a + b)[..|a + b| - 1] == a + b[..|b| - 1];
    }
  }

  lemma {:induction false} CountInPart(kind: EventType, log: seq<Event>)
    requires kind in {STOP, RESET, SEND_REQUEST}
    ensures Count(kind, log) == Count(kind, SchedulerPart(log))
  {
    if log == [] {
    } else {
      var front, e := log[..|log| - 1], log[|log| - 1];
      CountInPart(kind, front);
      if FromScheduler(e) {
        CountConcat(kind, SchedulerPart(front), [e]);
        assert [e][..0] == [];
      } else {
        assert SchedulerPart(front) + [] == SchedulerPart(front);
      }
    }
  }

  function Sum(ks: seq<nat>): nat {
    if ks == [] then 0 else Sum(ks[..|ks| - 1]) + ks[|ks| - 1]
  }

  lemma {:induction false} CountSends(k: nat)
    ensures Count(SEND_REQUEST, Sends(k)) == k && Count(RESET, Sends(k)) == 0 && Count(STOP, Sends(k)) == 0
  {
    if k == 0 {
    } else {
      CountSends(k - 1);
      assert Sends(k)[..k - 1] == Sends(k - 1);
    }
  }

  lemma {:induction false} CountShape(ks: seq<nat>)
    ensures Count(RESET, Shape(ks)) == |ks|
    ensures Count(SEND_REQUEST, Shape(ks)) == Sum(ks)
    ensures Count(STOP, Shape(ks)) == 0
  {
    if ks == [] {
    } else {
      var front, k := ks[..|ks| - 1], ks[|ks| - 1];
      CountShape(front);
      CountSends(k);
      forall kind: EventType
        ensures Count(kind, Shape(ks)) ==
                Count(kind, Shape(front)) + (if kind == RESET then 1 else 0) + Count(kind, Sends(k))
      {
        CountConcat(kind, Shape(front) + [RESET_EVENT], Sends(k));
        CountConcat(kind, Shape(front), [RESET_EVENT]);
        assert [RESET_EVENT][..0] == [];
      }
    }
  }

  // ---------- What the consumed control events leave behind ----------

  /** The limit a worker holds after handling `log`, starting from `initial`. */
  function LimitAfter(initial: int, log: seq<Event>): int {
    if log == [] then initial
    else
      var e := log[|log| - 1];
      if e.kind == SET_MAX_OUTSTANDING && e.extraData.Int? then ToInt32(e.extraData.value)
      else LimitAfter(initial, log[..|log| - 1])
  }

  lemma LimitAfterAppend(initial: int, log: seq<Event>, e: Event)
    ensures LimitAfter(initial, log + [e]) ==
            if e.kind == SET_MAX_OUTSTANDING && e.extraData.Int? then ToInt32(e.extraData.value)
            else LimitAfter(initial, log)
  {
    assert (log + [e])[..|log|] == log;
  }

  predicate NoLimitChange(log: seq<Event>) {
    forall q :: 0 <= q < |log| ==> log[q].kind != SET_MAX_OUTSTANDING
  }

  lemma {:induction false} LimitAfterNoChange(initial: int, log: seq<Event>)
    requires NoLimitChange(log)
    ensures LimitAfter(initial, log) == initial
  {
    if log == [] {
    } else {
      LimitAfterNoChange(initial, log[..|log| - 1]);
    }
  }

  /** The phase a worker's workload holds after handling `log`. */
  function PhaseAfter(log: seq<Event>): string {
    if log == [] then ""
    else
      var e := log[|log| - 1];
      if e.kind == SET_PHASE && e.extraData.Str? then e.extraData.text
      else PhaseAfter(log[..|log| - 1])
  }

  /** If `log[p]` sets the phase and no later event does, that phase is in force. */
  lemma {:induction false} PhaseAfterLastSetPhase(log: seq<Event>, p: nat, name: string)
    requires p < |log| && log[p] == Event(SET_PHASE, Str(name))
    requires forall q :: p < q < |log| ==> log[q].kind != SET_PHASE
    ensures PhaseAfter(log) == name
  {
    if p == |log| - 1 {
    } else {
      PhaseAfterLastSetPhase(log[..|log| - 1], p, name);
    }
  }

  // ---------- Epochs of a prefix ----------

  /** `ks` is an initial part of `ls`, the last entry possibly smaller. */
  predicate Below(ks: seq<nat>, ls: seq<nat>) {
    && |ks| <= |ls|
    && (forall e :: 0 <= e < |ks| - 1 ==> ks[e] == ls[e])
    && (ks != [] ==> ks[|ks| - 1] <= ls[|ks| - 1])
  }

  /** The epochs before the last event of a non-empty shape. */
  function Unstep(ks: seq<nat>): seq<nat>
    requires ks != []
  {
    var l := |ks| - 1;
    if ks[l] == 0 then ks[..l] else ks[l := ks[l] - 1]
  }

  lemma {:induction false} ShapeUnstep(ks: seq<nat>)
    requires ks != []
    ensures Shape(ks) == Shape(Unstep(ks)) + [if ks[|ks| - 1] == 0 then RESET_EVENT else SEND_EVENT]
  {
    var l := |ks| - 1;
    if ks[l] == 0 {
      assert Sends(0) == [];
    } else {
      var us := Unstep(ks);
      assert us[..l] == ks[..l];
      assert Sends(ks[l]) == Sends(us[l]) + [SEND_EVENT];
    }
  }

  /** A shape determines its epochs. */
  lemma {:induction false} ShapeInjective(ks: seq<nat>, ls: seq<nat>)
    requires Shape(ks) == Shape(ls)
    ensures ks == ls
    decreases |Shape(ks)|
  {
    if ks == [] || ls == [] {
      assert ks != [] ==> false by { if ks != [] { ShapeUnstep(ks); } }
      assert ls != [] ==> false by { if ls != [] { ShapeUnstep(ls); } }
    } else {
      ShapeUnstep(ks);
      ShapeUnstep(ls);
      var p := Shape(ks);
      assert p[..|p| - 1] == Shape(Unstep(ks)) && p[..|p| - 1] == Shape(Unstep(ls));
      ShapeInjective(Unstep(ks), Unstep(ls));
      assert p[|p| - 1] == if ks[|ks| - 1] == 0 then RESET_EVENT else SEND_EVENT;
      assert p[|p| - 1] == if ls[|ls| - 1] == 0 then RESET_EVENT else SEND_EVENT;
      RestepInjective(ks, ls);
    }
  }

  lemma RestepInjective(ks: seq<nat>, ls: seq<nat>)
    requires ks != [] && ls != [] && Unstep(ks) == Unstep(ls)
    requires ks[|ks| - 1] == 0 <==> ls[|ls| - 1] == 0
    ensures ks == ls
  {
    var l, m := |ks| - 1, |ls| - 1;
    if ks[l] == 0 {
      assert ks == Unstep(ks) + [0];
      assert ls == Unstep(ls) + [0];
    } else {
      assert l == m;
      assert ks == Unstep(ks)[l := Unstep(ks)[l] + 1];
      assert ls == Unstep(ls)[l := Unstep(ls)[l] + 1];
    }
  }

  /** The epochs of a prefix are an initial part of the epochs. */
  lemma {:induction false} ShapePrefix(ks: seq<nat>, ls: seq<nat>)
    requires Shape(ks) <= Shape(ls)
    ensures Below(ks, ls)
    decreases |Shape(ls)|
  {
    if Shape(ks) == Shape(ls) {
      ShapeInjective(ks, ls);
    } else {
      ShapeUnstep(ls);
      ShapePrefix(ks, Unstep(ls));
    }
  }

  lemma {:induction false} ShapeGrows(ks: seq<nat>, ls: seq<nat>)
    requires ks < ls
    ensures Shape(ks) + [RESET_EVENT] <= Shape(ls)
  {
    var front := ls[..|ls| - 1];
    if |front| == |ks| {
      assert front == ks;
    } else {
      ShapeGrows(ks, front);
    }
  }
}
