/**
 * One NAT connection: its read deadline and the fast close of DNS lookups.
 *
 * A write is three atomic steps, because the reaper goroutine may handle a
 * read between any two of them: disabling the fast close, moving
 * `readDeadline`, and setting the deadline of the socket. Writes themselves
 * never overlap, since only the serve loop writes.
 */
module NatDeadline {
  import opened ByteSeqs

  /** Instants and durations in nanoseconds. */
  type Time = int

  /** Section 10 of RFC 5452. */
  const DNS_TIMEOUT: Time := 17_000_000_000

  /** How far the current write has come. */
  datatype Phase = Idle | Begun(dns: bool) | Extended(moved: bool)

  /** `None` is the zero time for `readDeadline`, and no deadline for the socket. */
  datatype Conn = Conn(readDeadline: Option<Time>, fastCloseDone: bool, socket: Option<Time>, phase: Phase)

  datatype Event =
    | BeginWrite(dns: bool)
    | Extend(now: Time, dns: bool)
    | Apply
    | Read(now: Time, dns: bool)
    | CloseAll(now: Time)

  function TimeoutFor(defaultTimeout: Time, dns: bool): Time {
    if dns then DNS_TIMEOUT else defaultTimeout
  }

  predicate After(t: Time, deadline: Option<Time>) {
    deadline.None? || t > deadline.value
  }

  /** The next state; `None` if the event cannot happen now. */
  function Step(defaultTimeout: Time, c: Conn, e: Event): Option<Conn> {
    match e
    case BeginWrite(dns) =>
      if c.phase != Idle then None
      else Some(c.(phase := Begun(dns), fastCloseDone := c.fastCloseDone || !dns || c.readDeadline.Some?))
    case Extend(now, dns) =>
      if c.phase != Begun(dns) then None
      else
        var t := now + TimeoutFor(defaultTimeout, dns);
        if After(t, c.readDeadline) then Some(c.(phase := Extended(true), readDeadline := Some(t)))
        else Some(c.(phase := Extended(false)))
    case Apply =>
      if !c.phase.Extended? then None
      else Some(c.(phase := Idle, socket := if c.phase.moved then c.readDeadline else c.socket))
    case Read(now, dns) =>
      Some(c.(fastCloseDone := true, socket := if FastCloses(c, e) then Some(now) else c.socket))
    case CloseAll(now) =>
      Some(c.(socket := Some(now)))
  }

  predicate FastCloses(c: Conn, e: Event) {
    e.Read? && e.dns && !c.fastCloseDone
  }

  const INITIAL := Conn(None, false, None, Idle)

  function Run(defaultTimeout: Time, trace: seq<Event>): Option<Conn> {
    if trace == [] then Some(INITIAL)
    else
      match Run(defaultTimeout, trace[..|trace| - 1])
      case None => None
      case Some(c) => Step(defaultTimeout, c, trace[|trace| - 1])
  }

  // ------------------------------------------------------------- the implementation

  /** A socket made for one entry; every entry gets a new one. */
  type Socket = nat

  /** `natconn`; the three parts of `onWrite` are separate methods, run in order by `OnWrite`. */
  class NatConn {
    const socket: Socket
    const defaultTimeout: Time
    var readDeadline: Option<Time>
    var fastCloseDone: bool
    var socketDeadline: Option<Time>
    ghost var phase: Phase

    constructor (socket: Socket, defaultTimeout: Time)
      ensures View() == INITIAL && this.socket == socket && this.defaultTimeout == defaultTimeout
    {
      this.socket, this.defaultTimeout := socket, defaultTimeout;
      readDeadline, fastCloseDone, socketDeadline := None, false, None;
      phase := Idle;
    }

    ghost function View(): Conn
      reads this
    {
      Conn(readDeadline, fastCloseDone, socketDeadline, phase)
    }

    method DisableFastClose(dns: bool)
      requires phase == Idle
      modifies this
      ensures Some(View()) == Step(defaultTimeout, old(View()), BeginWrite(dns))
    {
      var isFirstWrite := readDeadline.None?;
      if !dns || !isFirstWrite {
        fastCloseDone := true;
      }
      phase := Begun(dns);
    }

    method ExtendDeadline(now: Time, dns: bool) returns (moved: bool)
      requires phase == Begun(dns)
      modifies this
      ensures Some(View()) == Step(defaultTimeout, old(View()), Extend(now, dns))
      ensures phase == Extended(moved)
    {
      var timeout := if dns then DNS_TIMEOUT else defaultTimeout;
      var newDeadline := now + timeout;
      moved := After(newDeadline, readDeadline);
      if moved {
        readDeadline := Some(newDeadline);
      }
      phase := Extended(moved);
    }

    method ApplyDeadline(moved: bool)
      requires phase == Extended(moved)
      modifies this
      ensures Some(View()) == Step(defaultTimeout, old(View()), Apply)
    {
      if moved {
        socketDeadline := readDeadline;
      }
      phase := Idle;
    }

    /** A write that no read interrupts. */
    method OnWrite(now: Time, dns: bool, ghost trace: seq<Event>)
      requires Run(defaultTimeout, trace) == Some(View()) && phase == Idle
      modifies this
      ensures Run(defaultTimeout, trace + [BeginWrite(dns), Extend(now, dns), Apply]) == Some(View())
      ensures phase == Idle
    {
      DisableFastClose(dns);
      RunSnoc(defaultTimeout, trace, BeginWrite(dns));
      var moved := ExtendDeadline(now, dns);
      RunSnoc(defaultTimeout, trace + [BeginWrite(dns)], Extend(now, dns));
      ApplyDeadline(moved);
      RunSnoc(defaultTimeout, trace + [BeginWrite(dns)] + [Extend(now, dns)], Apply);
      assert trace + [BeginWrite(dns)] + [Extend(now, dns)] + [Apply]
          == trace + [BeginWrite(dns), Extend(now, dns), Apply];
    }

    method OnRead(now: Time, dns: bool)
      modifies this
      ensures Some(View()) == Step(defaultTimeout, old(View()), Read(now, dns))
    {
      if !fastCloseDone {
        fastCloseDone := true;
        if dns {
          socketDeadline := Some(now);  // the next read times out immediately
        }
      }
    }

    /** `SetReadDeadline` of the embedded socket, which passes `readDeadline` by. */
    method SetReadDeadline(now: Time)
      modifies this`socketDeadline
      ensures Some(View()) == Step(defaultTimeout, old(View()), CloseAll(now))
    {
      socketDeadline := Some(now);
    }
  }

  lemma RunSnoc(defaultTimeout: Time, trace: seq<Event>, e: Event)
    ensures Run(defaultTimeout, trace + [e])
         == match Run(defaultTimeout, trace) case None => None case Some(c) => Step(defaultTimeout, c, e)
  {
    hide Step;
    assert (trace + [e])[..|trace|] == trace;
  }

  // ---------------------------------------------------------- what a run has seen

  function Writes(trace: seq<Event>): nat {
    if trace == [] then 0
    else Writes(trace[..|trace| - 1]) + if trace[|trace| - 1].BeginWrite? then 1 else 0
  }

  function Reads(trace: seq<Event>): nat {
    if trace == [] then 0
    else Reads(trace[..|trace| - 1]) + if trace[|trace| - 1].Read? then 1 else 0
  }

  predicate OnlyDnsWrites(trace: seq<Event>) {
    forall e :: e in trace && e.BeginWrite? ==> e.dns
  }

  /** The latest of all (write time + timeout). */
  function LatestDeadline(defaultTimeout: Time, trace: seq<Event>): Option<Time> {
    if trace == [] then None
    else
      var before := LatestDeadline(defaultTimeout, trace[..|trace| - 1]);
      match trace[|trace| - 1]
      case Extend(now, dns) =>
        var t := now + TimeoutFor(defaultTimeout, dns);
        if before.Some? && before.value >= t then before else Some(t)
      case _ => before
  }

  /** `LatestDeadline` is the maximum: attained, and an upper bound. */
  lemma {:induction false} LatestIsMaximum(defaultTimeout: Time, trace: seq<Event>)
    ensures var d := LatestDeadline(defaultTimeout, trace);
      && (d.None? <==> forall e :: e in trace ==> !e.Extend?)
      && (d.Some? ==>
            && (forall e :: e in trace && e.Extend? ==> e.now + TimeoutFor(defaultTimeout, e.dns) <= d.value)
            && (exists e :: e in trace && e.Extend? && e.now + TimeoutFor(defaultTimeout, e.dns) == d.value))
  {
    if trace != [] {
      var front, last := trace[..|trace| - 1], trace[|trace| - 1];
      LatestIsMaximum(defaultTimeout, front);
      assert trace == front + [last];
      assert last in trace;
      assert forall e :: e in front ==> e in trace;
    }
  }

  /** The fields as functions of the run, whatever the clock does. */
  lemma {:induction false} StateOfRun(defaultTimeout: Time, trace: seq<Event>, c: Conn)
    requires Run(defaultTimeout, trace) == Some(c)
    ensures c.readDeadline == LatestDeadline(defaultTimeout, trace)
    ensures c.fastCloseDone <==> Reads(trace) > 0 || Writes(trace) >= 2 || !OnlyDnsWrites(trace)
    ensures c.readDeadline.Some? <==> Writes(trace) >= if c.phase.Begun? then 2 else 1
    ensures c.phase != Idle ==> Writes(trace) > 0
  {
    if trace != [] {
      var front, last := trace[..|trace| - 1], trace[|trace| - 1];
      assert trace == front + [last];
      StateOfRun(defaultTimeout, front, Run(defaultTimeout, front).value);
    }
  }

  /**
   * Exactly when the fast close happens: on the first successful read, if it
   * comes from a DNS server and if until then there has been at most one write
   * and no write to anything but a DNS server.
   */
  lemma FastCloseExactly(defaultTimeout: Time, trace: seq<Event>, c: Conn, e: Event)
    requires Run(defaultTimeout, trace) == Some(c) && e.Read?
    ensures FastCloses(c, e) <==> e.dns && Reads(trace) == 0 && Writes(trace) <= 1 && OnlyDnsWrites(trace)
  {
    StateOfRun(defaultTimeout, trace, c);
  }

  /** It happens at most once in a run. */
  lemma FastCloseOnce(defaultTimeout: Time, trace: seq<Event>, i: nat, j: nat, ci: Conn, cj: Conn)
    requires i < j < |trace|
    requires Run(defaultTimeout, trace[..i]) == Some(ci) && Run(defaultTimeout, trace[..j]) == Some(cj)
    requires FastCloses(ci, trace[i])
    ensures !FastCloses(cj, trace[j])
  {
    ReadsGrow(trace[..j], i);
    assert trace[..j][..i + 1] == trace[..i + 1] && trace[..i + 1][..i] == trace[..i];
    if trace[j].Read? {
      FastCloseExactly(defaultTimeout, trace[..j], cj, trace[j]);
    }
  }

  lemma {:induction false} ReadsGrow(trace: seq<Event>, i: nat)
    requires i < |trace|
    ensures Reads(trace[..i + 1]) <= Reads(trace)
    decreases |trace|
  {
    if i + 1 < |trace| {
      var front := trace[..|trace| - 1];
      ReadsGrow(front, i);
      assert front[..i + 1] == trace[..i + 1];
    } else {
      assert trace[..i + 1] == trace;
    }
  }

  // -------------------------------------------------------- deadline of the socket

  predicate HasTime(e: Event) {
    !e.BeginWrite? && !e.Apply?
  }

  /** A monotone clock that advances between two writes. */
  predicate Clocked(trace: seq<Event>) {
    forall i, j :: 0 <= i < j < |trace| && HasTime(trace[i]) && HasTime(trace[j]) ==>
      && trace[i].now <= trace[j].now
      && (trace[i].Extend? && trace[j].Extend? ==> trace[i].now < trace[j].now)
  }

  predicate NotClosed(trace: seq<Event>) {
    forall e :: e in trace ==> !e.CloseAll?
  }

  /** The times at which the deadline was considered. */
  function Extensions(trace: seq<Event>): (r: seq<Event>)
    ensures forall e :: e in r ==> e.Extend? && e in trace
  {
    if trace == [] then []
    else
      var front := Extensions(trace[..|trace| - 1]);
      if trace[|trace| - 1].Extend? then front + [trace[|trace| - 1]] else front
  }

  /** Between the fast close and the second write, the socket may be ahead of `readDeadline`. */
  predicate MayBeFastClosed(trace: seq<Event>) {
    var x := Extensions(trace);
    |x| == 1 && x[0].dns && Reads(trace) > 0
  }

  ghost predicate SocketInvariant(defaultTimeout: Time, trace: seq<Event>, c: Conn) {
    var x := Extensions(trace);
    && |x| + (if c.phase.Begun? then 1 else 0) == Writes(trace)
    && (|x| == 1 ==> c.readDeadline == Some(x[0].now + TimeoutFor(defaultTimeout, x[0].dns)))
    && (|x| == 1 && c.phase.Extended? ==> c.phase.moved)
    && (|x| >= 1 && !(c.phase.Extended? && c.phase.moved) && !MayBeFastClosed(trace) ==> c.socket == c.readDeadline)
    && (|x| >= 1 && !x[0].dns ==> c.fastCloseDone)
    && (c.phase.Begun? && (!c.phase.dns || |x| >= 1) ==> c.fastCloseDone)
    && (|x| >= 2 ==> c.fastCloseDone)
  }

  lemma {:induction false} SocketInvariantHolds(defaultTimeout: Time, trace: seq<Event>, c: Conn)
    requires Run(defaultTimeout, trace) == Some(c)
    requires defaultTimeout >= DNS_TIMEOUT && Clocked(trace) && NotClosed(trace)
    ensures SocketInvariant(defaultTimeout, trace, c)
  {
    if trace != [] {
      var front, last := trace[..|trace| - 1], trace[|trace| - 1];
      var b := Run(defaultTimeout, front).value;
      ClockedFront(trace);
      StateOfRun(defaultTimeout, front, b);
      hide Step, SocketInvariant, Clocked, NotClosed, OnlyDnsWrites;
      SocketInvariantHolds(defaultTimeout, front, b);
      SocketInvariantStep(defaultTimeout, trace, b, c);
    }
  }

  lemma ClockedFront(trace: seq<Event>)
    requires Clocked(trace) && NotClosed(trace) && trace != []
    ensures var front, last := trace[..|trace| - 1], trace[|trace| - 1];
      && Clocked(front) && NotClosed(front) && !last.CloseAll?
      && forall e :: e in front && e.Extend? && last.Extend? ==> e.now < last.now
  {
    assert trace == trace[..|trace| - 1] + [trace[|trace| - 1]];
  }

  lemma SocketInvariantStep(defaultTimeout: Time, trace: seq<Event>, b: Conn, c: Conn)
    requires trace != [] && defaultTimeout >= DNS_TIMEOUT
    requires var front, last := trace[..|trace| - 1], trace[|trace| - 1];
      && SocketInvariant(defaultTimeout, front, b) && Step(defaultTimeout, b, last) == Some(c) && !last.CloseAll?
      && (forall e :: e in Extensions(front) && last.Extend? ==> e.now < last.now)
      && (b.readDeadline.Some? <==> Writes(front) >= if b.phase.Begun? then 2 else 1)
    ensures SocketInvariant(defaultTimeout, trace, c)
  {
    var front, last := trace[..|trace| - 1], trace[|trace| - 1];
    var x := Extensions(front);
    if |x| == 1 {
      assert x[0] in x;
    }
    match last {
      case BeginWrite(dns) =>
      case Extend(now, dns) =>
      case Apply =>
      case Read(now, dns) =>
      case CloseAll(now) =>
    }
  }

  /** The second write has been completed, or a later one begun. */
  predicate SecondWriteDone(trace: seq<Event>, c: Conn) {
    Writes(trace) >= 3 || (Writes(trace) == 2 && c.phase == Idle)
  }

  ghost predicate SocketAgrees(c: Conn) {
    c.phase == Extended(true) || c.socket == c.readDeadline
  }

  /**
   * From the second write until `natmap.Close`, the socket's deadline is
   * `readDeadline` (but for the moment in which a write moves both) in every
   * run with an advancing clock, if and only if the default timeout is at
   * least the DNS timeout.
   */
  lemma SocketFollowsReadDeadline(defaultTimeout: Time)
    ensures defaultTimeout >= DNS_TIMEOUT
       <==> forall trace: seq<Event> {:trigger Run(defaultTimeout, trace)} ::
              Clocked(trace) && NotClosed(trace) && Run(defaultTimeout, trace).Some?
              && SecondWriteDone(trace, Run(defaultTimeout, trace).value)
              ==> SocketAgrees(Run(defaultTimeout, trace).value)
  {
    if defaultTimeout >= DNS_TIMEOUT {
      forall trace: seq<Event> | Clocked(trace) && NotClosed(trace) && Run(defaultTimeout, trace).Some?
             && SecondWriteDone(trace, Run(defaultTimeout, trace).value)
        ensures SocketAgrees(Run(defaultTimeout, trace).value)
      {
        SocketInvariantHolds(defaultTimeout, trace, Run(defaultTimeout, trace).value);
      }
    } else {
      ShortTimeoutDiverges(defaultTimeout);
    }
  }

  /** A DNS query, its answer, and a write elsewhere. */
  const LOOKUP_THEN_OTHER := [
    BeginWrite(true), Extend(1, true), Apply, Read(1, true), BeginWrite(false), Extend(2, false), Apply]

  /** With a shorter default timeout the expiry set by the answer stays in force after the second write. */
  lemma ShortTimeoutDiverges(defaultTimeout: Time)
    requires defaultTimeout < DNS_TIMEOUT
    ensures Clocked(LOOKUP_THEN_OTHER) && NotClosed(LOOKUP_THEN_OTHER)
    ensures var r := Run(defaultTimeout, LOOKUP_THEN_OTHER);
      r == Some(Conn(Some(1 + DNS_TIMEOUT), true, Some(1), Idle)) && SecondWriteDone(LOOKUP_THEN_OTHER, r.value)
  {
    hide Run, Step, Writes;
    LookupWrites();
    LookupRun(defaultTimeout);
  }

  lemma LookupRun(defaultTimeout: Time)
    requires defaultTimeout < DNS_TIMEOUT
    ensures Run(defaultTimeout, LOOKUP_THEN_OTHER) == Some(Conn(Some(1 + DNS_TIMEOUT), true, Some(1), Idle))
  {
    hide Run;
    assert Run(defaultTimeout, []) == Some(INITIAL) by {
      EmptyRun(defaultTimeout);
    }
    RunSnoc(defaultTimeout, [], BeginWrite(true));
    RunSnoc(defaultTimeout, [] + [BeginWrite(true)], Extend(1, true));
    RunSnoc(defaultTimeout, LOOKUP_THEN_OTHER[..2], Apply);
    RunSnoc(defaultTimeout, LOOKUP_THEN_OTHER[..3], Read(1, true));
    RunSnoc(defaultTimeout, LOOKUP_THEN_OTHER[..4], BeginWrite(false));
    RunSnoc(defaultTimeout, LOOKUP_THEN_OTHER[..5], Extend(2, false));
    RunSnoc(defaultTimeout, LOOKUP_THEN_OTHER[..6], Apply);
    assert [] + [BeginWrite(true)] + [Extend(1, true)] == LOOKUP_THEN_OTHER[..2];
    assert LOOKUP_THEN_OTHER[..2] + [Apply] == LOOKUP_THEN_OTHER[..3];
    assert LOOKUP_THEN_OTHER[..3] + [Read(1, true)] == LOOKUP_THEN_OTHER[..4];
    assert LOOKUP_THEN_OTHER[..4] + [BeginWrite(false)] == LOOKUP_THEN_OTHER[..5];
    assert LOOKUP_THEN_OTHER[..5] + [Extend(2, false)] == LOOKUP_THEN_OTHER[..6];
    assert LOOKUP_THEN_OTHER[..6] + [Apply] == LOOKUP_THEN_OTHER;
  }

  lemma EmptyRun(defaultTimeout: Time)
    ensures Run(defaultTimeout, []) == Some(INITIAL)
  {
  }

  lemma LookupWrites()
    ensures Writes(LOOKUP_THEN_OTHER) == 2
  {
    WritesSnoc([], BeginWrite(true));
    WritesSnoc([BeginWrite(true)], Extend(1, true));
    WritesSnoc(LOOKUP_THEN_OTHER[..2], Apply);
    WritesSnoc(LOOKUP_THEN_OTHER[..3], Read(1, true));
    WritesSnoc(LOOKUP_THEN_OTHER[..4], BeginWrite(false));
    WritesSnoc(LOOKUP_THEN_OTHER[..5], Extend(2, false));
    WritesSnoc(LOOKUP_THEN_OTHER[..6], Apply);
    assert [BeginWrite(true)] + [Extend(1, true)] == LOOKUP_THEN_OTHER[..2];
    assert LOOKUP_THEN_OTHER[..2] + [Apply] == LOOKUP_THEN_OTHER[..3];
    assert LOOKUP_THEN_OTHER[..3] + [Read(1, true)] == LOOKUP_THEN_OTHER[..4];
    assert LOOKUP_THEN_OTHER[..4] + [BeginWrite(false)] == LOOKUP_THEN_OTHER[..5];
    assert LOOKUP_THEN_OTHER[..5] + [Extend(2, false)] == LOOKUP_THEN_OTHER[..6];
    assert LOOKUP_THEN_OTHER[..6] + [Apply] == LOOKUP_THEN_OTHER;
  }

  lemma WritesSnoc(trace: seq<Event>, e: Event)
    ensures Writes(trace + [e]) == Writes(trace) + if e.BeginWrite? then 1 else 0
  {
    assert (trace + [e])[..|trace|] == trace;
  }

  /**
   * `natmap.Close` runs after the last write. From then on the socket's
   * deadline has always passed already, whatever is read.
   */
  lemma {:induction false} ExpiredAfterClose(defaultTimeout: Time, trace: seq<Event>, at: nat, c: Conn)
    requires Run(defaultTimeout, trace) == Some(c) && Clocked(trace)
    requires at < |trace| && trace[at].CloseAll?
    requires forall i :: at < i < |trace| ==> trace[i].Read? || trace[i].CloseAll?
    ensures c.socket.Some? && c.socket.value <= trace[|trace| - 1].now
    decreases |trace|
  {
    if at + 1 < |trace| {
      var front, last := trace[..|trace| - 1], trace[|trace| - 1];
      ExpiredAfterClose(defaultTimeout, front, at, Run(defaultTimeout, front).value);
      assert front[|front| - 1] == trace[|trace| - 2];
    }
  }
}
