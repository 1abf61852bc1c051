/**
 * The life cycle of a service: any number of calls of `Serve`, `Stop` and
 * `GracefulStop` in any interleaving of their atomic steps. The TCP and the UDP
 * service follow the same protocol; what the TCP service does for an accepted
 * connection, the UDP service does for a new NAT entry.
 */
module ServeStop {
  import opened ByteSeqs
  import opened Collections

  type Listener = nat
  type CallId = nat
  type HandlerId = nat

  /** The fields of the service that its lock and its wait group protect. */
  datatype Shared = Shared(listener: Option<Listener>, stopped: bool, running: nat)

  /** The locked part of `Serve`: adopts the listener unless there is one or the service is stopped. */
  function Adopted(v: Shared, l: Listener): Option<Shared> {
    if v.listener.Some? || v.stopped then None
    else Some(v.(listener := Some(l), running := v.running + 1))
  }

  /** The locked part of `Stop`, and the listener that it closes. */
  function Stopped(v: Shared): (Shared, Option<Listener>) {
    (v.(stopped := true), v.listener)
  }

  /** The shared fields of `tcpService` and `udpService`. */
  class Service {
    var listener: Option<Listener>
    var stopped: bool
    var running: nat

    constructor ()
      ensures View() == Shared(None, false, 0)
    {
      listener, stopped, running := None, false, 0;
    }

    ghost function View(): Shared
      reads this
    {
      Shared(listener, stopped, running)
    }

    /** `Serve` up to the release of the lock; if it returns false, the caller closes the listener. */
    method Adopt(l: Listener) returns (ok: bool)
      modifies this
      ensures ok == Adopted(old(View()), l).Some?
      ensures ok <==> old(listener).None? && !old(stopped)
      ensures ok ==> listener == Some(l) && !stopped && running == old(running) + 1
      ensures View() == if ok then Adopted(old(View()), l).value else old(View())
    {
      if listener.Some? {
        return false;
      }
      if stopped {
        return false;
      }
      listener, running := Some(l), running + 1;
      return true;
    }

    method Stop() returns (toClose: Option<Listener>)
      modifies this
      ensures (View(), toClose) == Stopped(old(View()))
      ensures stopped && toClose == listener == old(listener) && running == old(running)
    {
      stopped, toClose := true, listener;
    }
  }

  // ------------------------------------------------------------------ the protocol

  datatype ServePhase =
    | Called
    | Refused
    | Accepting
    | Got
    | Adding
    | Failed
    | Leaving
    | Returned(adopted: bool)

  datatype Serve = Serve(l: Listener, phase: ServePhase)

  datatype StopPhase = StopCalled(graceful: bool) | WaitingForAll | StopReturned(graceful: bool)

  datatype State = State(
    shared: Shared,
    closed: set<Listener>,
    serves: map<CallId, Serve>,
    stops: map<CallId, StopPhase>,
    /** True while the handler runs. */
    handlers: map<HandlerId, bool>)

  const START := State(Shared(None, false, 0), {}, map[], map[], map[])

  datatype ServeStep =
    | Lock
    | CloseRefused
    | Accept
    | AddOne
    | Spawn(h: HandlerId)
    | AcceptError
    | CheckStopped
    | Done

  datatype Step =
    | CallServe(i: CallId, l: Listener)
    | CallStop(i: CallId, graceful: bool)
    | ServeDoes(i: CallId, what: ServeStep)
    | LockedStop(i: CallId)
    | WaitEnds(i: CallId)
    | HandlerEnds(h: HandlerId)

  /** The call i of `Serve` goes from one phase to another. */
  function Move(s: State, i: CallId, to: ServePhase): State
    requires i in s.serves
  {
    s.(serves := s.serves[i := Serve(s.serves[i].l, to)])
  }

  function NextOfServe(s: State, i: CallId, what: ServeStep): Option<State>
    requires i in s.serves
  {
    var (l, phase) := (s.serves[i].l, s.serves[i].phase);
    match what
    case Lock =>
      if phase != Called then None
      else
        (match Adopted(s.shared, l)
         case None => Some(Move(s, i, Refused))
         case Some(v) => Some(Move(s, i, Accepting).(shared := v)))
    case CloseRefused =>
      if phase != Refused then None else Some(Move(s, i, Returned(false)).(closed := s.closed + {l}))
    case Accept => if phase != Accepting then None else Some(Move(s, i, Got))
    case AddOne =>
      if phase != Got then None
      else Some(Move(s, i, Adding).(shared := s.shared.(running := s.shared.running + 1)))
    case Spawn(h) =>
      if phase != Adding || h in s.handlers then None
      else Some(Move(s, i, Accepting).(handlers := s.handlers[h := true]))
    case AcceptError => if phase != Accepting then None else Some(Move(s, i, Failed))
    case CheckStopped =>
      if phase != Failed then None else Some(Move(s, i, if s.shared.stopped then Leaving else Accepting))
    case Done =>
      if phase != Leaving || s.shared.running == 0 then None
      else Some(Move(s, i, Returned(true)).(shared := s.shared.(running := s.shared.running - 1)))
  }

  /** The next state, or `None` if the step cannot be taken now. */
  function Next(s: State, step: Step): Option<State> {
    match step
    case CallServe(i, l) =>
      if i in s.serves then None else Some(s.(serves := s.serves[i := Serve(l, Called)]))
    case CallStop(i, graceful) =>
      if i in s.stops then None else Some(s.(stops := s.stops[i := StopCalled(graceful)]))
    case ServeDoes(i, what) => if i in s.serves then NextOfServe(s, i, what) else None
    case LockedStop(i) =>
      if i !in s.stops || !s.stops[i].StopCalled? then None
      else
        var (v, l) := Stopped(s.shared);
        Some(s.(shared := v, closed := s.closed + (if l.Some? then {l.value} else {}),
                stops := s.stops[i := if s.stops[i].graceful then WaitingForAll else StopReturned(false)]))
    case WaitEnds(i) =>
      if i !in s.stops || !s.stops[i].WaitingForAll? || s.shared.running > 0 then None
      else Some(s.(stops := s.stops[i := StopReturned(true)]))
    case HandlerEnds(h) =>
      if h !in s.handlers || !s.handlers[h] || s.shared.running == 0 then None
      else Some(s.(handlers := s.handlers[h := false], shared := s.shared.(running := s.shared.running - 1)))
  }

  function RunFrom(s: State, steps: seq<Step>): Option<State>
    decreases |steps|
  {
    if steps == [] then Some(s)
    else
      match RunFrom(s, steps[..|steps| - 1])
      case None => None
      case Some(b) => Next(b, steps[|steps| - 1])
  }

  // ------------------------------------------------------------------- invariants

  /** Has this call adopted its listener and not yet returned? */
  predicate Serving(c: Serve) {
    c.phase.Accepting? || c.phase.Got? || c.phase.Adding? || c.phase.Failed? || c.phase.Leaving?
  }

  predicate HasAdopted(c: Serve) {
    Serving(c) || c.phase == Returned(true)
  }

  predicate TurnedAway(c: Serve) {
    c.phase.Refused? || c.phase == Returned(false)
  }

  /** The calls that have adopted their listener. */
  function Adopters(s: State): set<CallId> {
    set i | i in s.serves && HasAdopted(s.serves[i])
  }

  ghost predicate AdoptInv(s: State) {
    && (forall i :: i in s.serves && HasAdopted(s.serves[i]) ==> s.shared.listener == Some(s.serves[i].l))
    && |Adopters(s)| <= 1
  }

  ghost predicate ListenerInv(s: State) {
    && (forall i :: i in s.serves && (s.serves[i].phase.Leaving? || s.serves[i].phase == Returned(true)) ==>
          s.shared.stopped)
    && (forall i :: i in s.serves && s.serves[i].phase == Returned(false) ==> s.serves[i].l in s.closed)
    && (s.shared.stopped && s.shared.listener.Some? ==> s.shared.listener.value in s.closed)
    && (forall i :: i in s.stops && !s.stops[i].StopCalled? ==> s.shared.stopped)
  }

  /** The wait group counts the serving call, a handler about to start, and the live handlers. */
  function ServingCalls(s: State): set<CallId> {
    set i | i in s.serves && Serving(s.serves[i])
  }

  function AddingCalls(s: State): set<CallId> {
    set i | i in s.serves && s.serves[i].phase.Adding?
  }

  function Live(s: State): set<HandlerId> {
    set h | h in s.handlers && s.handlers[h]
  }

  ghost predicate RunningInv(s: State) {
    s.shared.running == |ServingCalls(s)| + |AddingCalls(s)| + |Live(s)|
  }

  /** A call other than `Lock` goes on in the branch it has taken. */
  lemma OnlyLockAdopts(s: State, i: CallId, what: ServeStep, s': State)
    requires i in s.serves && NextOfServe(s, i, what) == Some(s') && !what.Lock?
    ensures s'.serves == s.serves[i := Serve(s.serves[i].l, s'.serves[i].phase)]
    ensures HasAdopted(s'.serves[i]) == HasAdopted(s.serves[i]) && TurnedAway(s'.serves[i]) == TurnedAway(s.serves[i])
    ensures s'.shared.listener == s.shared.listener && s'.shared.stopped == s.shared.stopped
  {
  }

  lemma AdoptLockStep(s: State, i: CallId, s': State)
    requires AdoptInv(s) && i in s.serves && NextOfServe(s, i, Lock) == Some(s')
    ensures AdoptInv(s')
  {
    CardUpdate(Adopters(s), Adopters(s'), i);
    if s.shared.listener.None? {
      assert Adopters(s) == {};
    }
  }

  lemma AdoptStep(s: State, step: Step, s': State)
    requires AdoptInv(s) && Next(s, step) == Some(s')
    ensures AdoptInv(s')
  {
    if step.ServeDoes? && step.what.Lock? {
      AdoptLockStep(s, step.i, s');
    } else {
      if step.ServeDoes? {
        OnlyLockAdopts(s, step.i, step.what, s');
        hide NextOfServe;
      }
      assert Adopters(s') == Adopters(s);
    }
  }

  lemma ListenerStep(s: State, step: Step, s': State)
    requires ListenerInv(s) && Next(s, step) == Some(s')
    ensures ListenerInv(s')
  {
    match step {
      case ServeDoes(i, what) =>
        hide ListenerInv;
        ListenerServeStep(s, i, what, s');
      case CallServe(i, l) =>
      case CallStop(i, graceful) =>
      case LockedStop(i) =>
      case WaitEnds(i) =>
      case HandlerEnds(h) =>
    }
  }

  lemma ListenerServeStep(s: State, i: CallId, what: ServeStep, s': State)
    requires ListenerInv(s) && i in s.serves && NextOfServe(s, i, what) == Some(s')
    ensures ListenerInv(s')
  {
  }

  lemma RunningStep(s: State, step: Step, s': State)
    requires RunningInv(s) && Next(s, step) == Some(s')
    ensures RunningInv(s')
  {
    hide NextOfServe;
    if step.ServeDoes? {
      RunningServeStep(s, step.i, step.what, s');
    } else {
      assert ServingCalls(s') == ServingCalls(s) && AddingCalls(s') == AddingCalls(s);
      if step.HandlerEnds? {
        CardUpdate(Live(s), Live(s'), step.h);
      } else {
        assert Live(s') == Live(s);
      }
    }
  }

  lemma RunningServeStep(s: State, i: CallId, what: ServeStep, s': State)
    requires RunningInv(s) && i in s.serves && NextOfServe(s, i, what) == Some(s')
    ensures RunningInv(s')
  {
    CardUpdate(ServingCalls(s), ServingCalls(s'), i);
    CardUpdate(AddingCalls(s), AddingCalls(s'), i);
    if what.Spawn? {
      CardUpdate(Live(s), Live(s'), what.h);
    } else {
      assert Live(s') == Live(s);
    }
  }

  lemma {:induction false} InvHolds(steps: seq<Step>, s: State)
    requires RunFrom(START, steps) == Some(s)
    ensures AdoptInv(s) && ListenerInv(s) && RunningInv(s)
  {
    if steps != [] {
      var front, last := steps[..|steps| - 1], steps[|steps| - 1];
      var b := RunFrom(START, front).value;
      InvHolds(front, b);
      hide Next, AdoptInv, ListenerInv, RunningInv;
      AdoptStep(b, last, s);
      ListenerStep(b, last, s);
      RunningStep(b, last, s);
    }
  }

  // ------------------------------------------------------------------ main results

  /** At most one call adopts its listener; a call that has returned has its listener closed. */
  lemma ListenersAreClosed(steps: seq<Step>, s: State, i: CallId, j: CallId)
    requires RunFrom(START, steps) == Some(s) && i in s.serves && j in s.serves
    ensures HasAdopted(s.serves[i]) && HasAdopted(s.serves[j]) ==> i == j
    ensures s.serves[i].phase.Returned? ==> s.serves[i].l in s.closed
    ensures s.serves[i].phase == Returned(true) ==> s.shared.stopped
  {
    InvHolds(steps, s);
    if i != j && HasAdopted(s.serves[i]) && HasAdopted(s.serves[j]) {
      TwoMembers(Adopters(s), i, j);
    }
  }

  /** A call is turned away only if another one has adopted its listener, or the service has been stopped. */
  ghost predicate RefusalInv(s: State) {
    && (s.shared.listener.Some? ==> Adopters(s) != {})
    && (forall i :: i in s.serves && TurnedAway(s.serves[i]) ==> s.shared.listener.Some? || s.shared.stopped)
  }

  lemma RefusalStep(s: State, step: Step, s': State)
    requires RefusalInv(s) && Next(s, step) == Some(s')
    ensures RefusalInv(s')
    ensures s'.shared.stopped <==> s.shared.stopped || step.LockedStop?
  {
    if step.ServeDoes? && step.what.Lock? {
      assert HasAdopted(s'.serves[step.i]) ==> step.i in Adopters(s');
      assert forall j :: j in Adopters(s) ==> j in Adopters(s');
    } else {
      if step.ServeDoes? {
        OnlyLockAdopts(s, step.i, step.what, s');
        hide NextOfServe;
      }
      assert Adopters(s') == Adopters(s);
    }
  }

  lemma {:induction false} RefusalHolds(steps: seq<Step>, s: State)
    requires RunFrom(START, steps) == Some(s)
    ensures RefusalInv(s)
    ensures s.shared.stopped <==> HasStop(steps)
  {
    if steps != [] {
      var front, last := steps[..|steps| - 1], steps[|steps| - 1];
      var b := RunFrom(START, front).value;
      RefusalHolds(front, b);
      hide Next, RefusalInv, HasStop;
      RefusalStep(b, last, s);
      OneMoreStop(steps);
    } else {
      assert !HasStop([]);
    }
  }

  /** Does some call of `Stop` have the lock in this run? */
  ghost predicate HasStop(steps: seq<Step>) {
    exists k :: 0 <= k < |steps| && steps[k].LockedStop?
  }

  lemma OneMoreStop(steps: seq<Step>)
    requires steps != []
    ensures HasStop(steps) <==> HasStop(steps[..|steps| - 1]) || steps[|steps| - 1].LockedStop?
  {
    if HasStop(steps[..|steps| - 1]) {
      var k :| 0 <= k < |steps| - 1 && steps[..|steps| - 1][k].LockedStop?;
      assert steps[k].LockedStop?;
    }
    if HasStop(steps) {
      var k :| 0 <= k < |steps| && steps[k].LockedStop?;
      assert k < |steps| - 1 ==> steps[..|steps| - 1][k].LockedStop?;
    }
  }

  /**
   * As long as nobody stops the service, one call serves from the moment at
   * which the first call has had the lock, and never ceases to.
   */
  lemma ServesUntilStopped(steps: seq<Step>, s: State, i: CallId) returns (j: CallId)
    requires RunFrom(START, steps) == Some(s) && !HasStop(steps)
    requires i in s.serves && !s.serves[i].phase.Called?
    ensures j in s.serves && Serving(s.serves[j]) && s.shared.listener == Some(s.serves[j].l)
    ensures forall m :: m in s.serves && HasAdopted(s.serves[m]) ==> m == j
  {
    RefusalHolds(steps, s);
    InvHolds(steps, s);
    if HasAdopted(s.serves[i]) {
      assert i in Adopters(s);
    }
    j := Member(Adopters(s));
    forall m | m in s.serves && HasAdopted(s.serves[m]) ensures m == j {
      if m != j {
        TwoMembers(Adopters(s), m, j);
      }
    }
  }

  /** The wait group is positive wherever a goroutine is added to it or taken off. */
  lemma AddsWhilePositive(steps: seq<Step>, s: State, i: CallId)
    requires RunFrom(START, steps) == Some(s)
    ensures i in s.serves && Serving(s.serves[i]) ==> s.shared.running >= 1
    ensures i in s.handlers && s.handlers[i] ==> s.shared.running >= 1
  {
    InvHolds(steps, s);
    if i in s.serves && Serving(s.serves[i]) {
      assert i in ServingCalls(s);
    }
    if i in s.handlers && s.handlers[i] {
      assert i in Live(s);
    }
  }

  /** Nothing is serving, nothing is live, and nothing can become so. */
  ghost predicate Quiet(s: State) {
    && s.shared.stopped && s.shared.running == 0
    && (forall i :: i in s.serves ==> !Serving(s.serves[i]))
    && (forall h :: h in s.handlers ==> !s.handlers[h])
  }

  lemma QuietStep(s: State, step: Step, s': State)
    requires Quiet(s) && Next(s, step) == Some(s')
    ensures Quiet(s') && s'.handlers == s.handlers
  {
  }

  lemma {:induction false} QuietForever(s: State, steps: seq<Step>, s': State)
    requires Quiet(s) && RunFrom(s, steps) == Some(s')
    ensures Quiet(s') && s'.handlers == s.handlers
    decreases |steps|
  {
    if steps != [] {
      var front, last := steps[..|steps| - 1], steps[|steps| - 1];
      var b := RunFrom(s, front).value;
      QuietForever(s, front, b);
      QuietStep(b, last, s');
    }
  }

  /** The step with which a `GracefulStop` returns finds everything quiet. */
  lemma WaitEndsQuiet(before: seq<Step>, i: CallId, s: State)
    requires RunFrom(START, before + [WaitEnds(i)]) == Some(s)
    ensures Quiet(s)
  {
    var steps := before + [WaitEnds(i)];
    assert steps[..|before|] == before;
    var b := RunFrom(START, before).value;
    InvHolds(before, b);
    assert ServingCalls(b) == {} && Live(b) == {};
    forall j | j in b.serves ensures !Serving(b.serves[j]) {
      assert j !in ServingCalls(b);
    }
    forall h | h in b.handlers ensures !b.handlers[h] {
      assert h !in Live(b);
    }
  }

  /** Once `GracefulStop` has returned, no handler is live, and none is ever started. */
  lemma GracefulStopIsFinal(before: seq<Step>, i: CallId, s: State, after: seq<Step>, s': State)
    requires RunFrom(START, before + [WaitEnds(i)]) == Some(s)
    requires RunFrom(s, after) == Some(s')
    ensures forall h :: h in s'.handlers ==> !s'.handlers[h]
    ensures s'.handlers == s.handlers
    ensures forall j :: j in s'.serves ==> !Serving(s'.serves[j])
  {
    WaitEndsQuiet(before, i, s);
    QuietForever(s, after, s');
  }

  // ------------------------------------------------------------ nothing blocks it

  lemma {:induction false} RunCons(s: State, step: Step, more: seq<Step>)
    requires Next(s, step).Some?
    ensures RunFrom(s, [step] + more) == RunFrom(Next(s, step).value, more)
    decreases |more|
  {
    hide Next;
    var all := [step] + more;
    if more == [] {
      assert all == [step] && all[..0] == [];
      assert RunFrom(s, []) == Some(s);
    } else {
      assert all[..|all| - 1] == [step] + more[..|more| - 1];
      RunCons(s, step, more[..|more| - 1]);
    }
  }

  ghost predicate Inv(s: State) {
    AdoptInv(s) && ListenerInv(s) && RunningInv(s)
  }

  lemma InvStep(s: State, step: Step, s': State)
    requires Inv(s) && Next(s, step) == Some(s')
    ensures Inv(s')
  {
    hide Next, AdoptInv, ListenerInv, RunningInv;
    AdoptStep(s, step, s');
    ListenerStep(s, step, s');
    RunningStep(s, step, s');
  }

  function Rank(phase: ServePhase): nat {
    match phase
    case Got => 5
    case Adding => 4
    case Accepting => 3
    case Failed => 2
    case Leaving => 1
    case _ => 0
  }

  /** The next step of a serving call on its way out, once the service has been stopped. */
  lemma WayOut(s: State, j: CallId) returns (what: ServeStep)
    requires Inv(s) && s.shared.stopped && j in s.serves && Serving(s.serves[j])
    ensures var next := NextOfServe(s, j, what);
      && next.Some? && next.value.stops == s.stops && next.value.shared.stopped && j in next.value.serves
      && Rank(next.value.serves[j].phase) < Rank(s.serves[j].phase)
      && (Serving(next.value.serves[j]) || next.value.serves[j].phase == Returned(true))
  {
    match s.serves[j].phase {
      case Got => what := AddOne;
      case Adding =>
        var h := Unused(s.handlers.Keys);
        what := ServeStep.Spawn(h);
      case Accepting => what := AcceptError;
      case Failed => what := CheckStopped;
      case Leaving =>
        assert j in ServingCalls(s);
        what := Done;
    }
  }

  /** A serving call can return. */
  lemma {:induction false} ServingEnds(s: State, j: CallId) returns (more: seq<Step>, e: State)
    requires Inv(s) && s.shared.stopped && j in s.serves && Serving(s.serves[j])
    ensures RunFrom(s, more) == Some(e) && Inv(e) && e.stops == s.stops && e.shared.stopped
    ensures j in e.serves && e.serves[j].phase == Returned(true)
    decreases Rank(s.serves[j].phase)
  {
    hide Inv, NextOfServe;
    var what := WayOut(s, j);
    var b := NextOfServe(s, j, what).value;
    assert Next(s, ServeDoes(j, what)) == Some(b);
    InvStep(s, ServeDoes(j, what), b);
    more, e := [], b;
    if Serving(b.serves[j]) {
      more, e := ServingEnds(b, j);
    } else {
      assert RunFrom(b, []) == Some(b);
    }
    RunCons(s, ServeDoes(j, what), more);
    more := [ServeDoes(j, what)] + more;
  }

  /** All handlers can end. */
  lemma {:induction false} HandlersEnd(s: State) returns (more: seq<Step>, e: State)
    requires Inv(s) && ServingCalls(s) == {}
    ensures RunFrom(s, more) == Some(e) && Inv(e) && e.stops == s.stops && ServingCalls(e) == {} && Live(e) == {}
    decreases |Live(s)|
  {
    more, e := [], s;
    if Live(s) != {} {
      var h := Member(Live(s));
      var b := Next(s, HandlerEnds(h)).value;
      assert ServingCalls(b) == ServingCalls(s);
      CardUpdate(Live(s), Live(b), h);
      InvStep(s, HandlerEnds(h), b);
      more, e := HandlersEnd(b);
      RunCons(s, HandlerEnds(h), more);
      more := [HandlerEnds(h)] + more;
    }
  }

  /**
   * `GracefulStop` never gets stuck: from every state in which it waits there is
   * a way to its end, on which the serving call returns and all handlers end.
   */
  lemma GracefulStopCanEnd(steps: seq<Step>, s: State, i: CallId) returns (more: seq<Step>, e: State)
    requires RunFrom(START, steps) == Some(s) && i in s.stops && s.stops[i].WaitingForAll?
    ensures RunFrom(s, more) == Some(e) && i in e.stops && e.stops[i] == StopReturned(true)
  {
    InvHolds(steps, s);
    var first, b := [], s;
    if ServingCalls(s) != {} {
      var j := Member(ServingCalls(s));
      first, b := ServingEnds(s, j);
      assert ServingCalls(b) == {} by {
        if ServingCalls(b) != {} {
          var k := Member(ServingCalls(b));
          TwoMembers(Adopters(b), j, k);
        }
      }
    }
    hide Next;
    var second, c := HandlersEnd(b);
    e := LastWait(c, i);
    RunCons(c, WaitEnds(i), []);
    assert RunFrom(e, []) == Some(e);
    RunThen(s, first, b, second, c);
    RunThen(s, first + second, c, [WaitEnds(i)] + [], e);
    more := first + second + ([WaitEnds(i)] + []);
  }

  lemma LastWait(c: State, i: CallId) returns (e: State)
    requires Inv(c) && ServingCalls(c) == {} && Live(c) == {} && i in c.stops && c.stops[i].WaitingForAll?
    ensures Next(c, WaitEnds(i)) == Some(e) && i in e.stops && e.stops[i] == StopReturned(true)
  {
    assert AddingCalls(c) <= ServingCalls(c);
    e := Next(c, WaitEnds(i)).value;
  }

  lemma {:induction false} RunThen(s: State, first: seq<Step>, b: State, second: seq<Step>, e: State)
    requires RunFrom(s, first) == Some(b) && RunFrom(b, second) == Some(e)
    ensures RunFrom(s, first + second) == Some(e)
    decreases |second|
  {
    hide Next;
    var all := first + second;
    if second == [] {
      assert all == first;
    } else {
      assert all[..|all| - 1] == first + second[..|second| - 1];
      RunThen(s, first, b, second[..|second| - 1], RunFrom(b, second[..|second| - 1]).value);
    }
  }

  /** A serving call that waits for connections can start a handler for the next one, as often as there is one. */
  lemma HandlerCanStart(s: State, j: CallId) returns (h: HandlerId, e: State)
    requires j in s.serves && s.serves[j].phase.Accepting?
    ensures RunFrom(s, [ServeDoes(j, Accept), ServeDoes(j, AddOne), ServeDoes(j, ServeStep.Spawn(h))]) == Some(e)
    ensures h !in s.handlers && e.handlers == s.handlers[h := true] && e.serves == s.serves
    ensures e.shared == s.shared.(running := s.shared.running + 1)
  {
    h := Unused(s.handlers.Keys);
    var b := Next(s, ServeDoes(j, Accept)).value;
    var c := Next(b, ServeDoes(j, AddOne)).value;
    e := Next(c, ServeDoes(j, ServeStep.Spawn(h))).value;
    assert e.serves == s.serves;
    hide Next;
    assert RunFrom(e, []) == Some(e);
    RunCons(c, ServeDoes(j, ServeStep.Spawn(h)), []);
    RunCons(b, ServeDoes(j, AddOne), [ServeDoes(j, ServeStep.Spawn(h))] + []);
    RunCons(s, ServeDoes(j, Accept), [ServeDoes(j, AddOne)] + ([ServeDoes(j, ServeStep.Spawn(h))] + []));
    assert [ServeDoes(j, Accept)] + ([ServeDoes(j, AddOne)] + ([ServeDoes(j, ServeStep.Spawn(h))] + []))
        == [ServeDoes(j, Accept), ServeDoes(j, AddOne), ServeDoes(j, ServeStep.Spawn(h))];
  }
}
