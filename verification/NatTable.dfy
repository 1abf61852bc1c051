/**
 * The NAT table: the serve loop, which alone adds entries, and one reaper
 * goroutine per entry, in any interleaving of their atomic steps.
 */
module NatTable {
  import opened ByteSeqs
  import opened Collections
  import opened NatDeadline

  /** A client address as a string. */
  type Addr = Bytes

  // ------------------------------------------------------------- the protocol

  /** A reaper: copying, then done copying, metric removed, entry deleted, socket closed, gone. */
  datatype ReaperPhase =
    | Copying
    | Expired
    | Uncounted
    | Deleted(got: Option<Socket>)
    | SocketClosed
    | Gone

  datatype Reaper = Reaper(addr: Addr, phase: ReaperPhase)

  /** The serve loop: `Placed`, `Counted` and `Registered` are the steps of `natmap.Add`. */
  datatype LoopPhase =
    | Waiting
    | Missing(addr: Addr)
    | Placed(addr: Addr, sock: Socket)
    | Counted(addr: Addr, sock: Socket)
    | Registered(addr: Addr, sock: Socket)
    | Forwarding(sock: Socket)
    | Closing
    | Closed
    | Returned

  datatype State = State(
    loop: LoopPhase,
    table: map<Addr, Socket>,
    conns: map<Socket, Conn>,
    reapers: map<Socket, Reaper>,
    closes: multiset<Socket>,
    added: nat,
    removed: nat,
    running: nat,
    clock: Time)

  /** Steps of the serve loop. */
  datatype LoopStep =
    | Receive(addr: Addr)
    | Drop
    | Place(sock: Socket)
    | Count
    | Register
    | Spawn
    | Write(event: Event)
    | Finish
    | Stop
    | CloseMap
    | Return

  /** Steps of the reaper of a socket. */
  datatype ReaperStep = ReadOne(dns: bool) | Expire | Uncount | Delete | CloseSocket | Leave

  datatype Step = Tick(now: Time) | Loop(l: LoopStep) | Reap(sock: Socket, r: ReaperStep)

  /** When `Serve` has adopted its socket. */
  const START := State(Waiting, map[], map[], map[], multiset{}, 0, 0, 1, 0)

  /** Is the loop within `natmap.Add`, before the reaper is started? */
  predicate Adding(l: LoopPhase) {
    l.Placed? || l.Counted? || l.Registered?
  }

  function NextOfLoop(timeout: Time, s: State, l: LoopStep): Option<State> {
    match l
    case Receive(addr) =>
      if !s.loop.Waiting? then None
      else if addr in s.table then Some(s.(loop := Forwarding(s.table[addr])))
      else Some(s.(loop := Missing(addr)))
    case Drop => if s.loop.Missing? then Some(s.(loop := Waiting)) else None
    case Place(sock) =>
      if !s.loop.Missing? || sock in s.conns then None
      else Some(s.(loop := Placed(s.loop.addr, sock), table := s.table[s.loop.addr := sock],
                   conns := s.conns[sock := INITIAL]))
    case Count =>
      if !s.loop.Placed? then None
      else Some(s.(loop := Counted(s.loop.addr, s.loop.sock), added := s.added + 1))
    case Register =>
      if !s.loop.Counted? then None
      else Some(s.(loop := Registered(s.loop.addr, s.loop.sock), running := s.running + 1))
    case Spawn =>
      if !s.loop.Registered? then None
      else Some(s.(loop := Forwarding(s.loop.sock),
                   reapers := s.reapers[s.loop.sock := Reaper(s.loop.addr, Copying)]))
    case Write(e) =>
      if !s.loop.Forwarding? || s.loop.sock !in s.conns || e.Read? || e.CloseAll? || (e.Extend? && e.now != s.clock)
      then None
      else
        (match NatDeadline.Step(timeout, s.conns[s.loop.sock], e)
         case None => None
         case Some(c) => Some(s.(conns := s.conns[s.loop.sock := c])))
    case Finish =>
      if s.loop.Forwarding? && s.loop.sock in s.conns && s.conns[s.loop.sock].phase.Idle?
      then Some(s.(loop := Waiting))
      else None
    case Stop => if s.loop.Waiting? then Some(s.(loop := Closing)) else None
    case CloseMap =>
      if !s.loop.Closing? then None
      else Some(s.(loop := Closed, conns := ExpireAll(s.conns, s.table.Values, s.clock)))
    case Return =>
      if !s.loop.Closed? || s.running == 0 then None
      else Some(s.(loop := Returned, running := s.running - 1))
  }

  function NextOfReaper(timeout: Time, s: State, k: Socket, r: ReaperStep): Option<State>
    requires k in s.reapers
  {
    var (a, phase) := (s.reapers[k].addr, s.reapers[k].phase);
    match r
    case ReadOne(dns) =>
      if !phase.Copying? || k !in s.conns then None
      else
        (match NatDeadline.Step(timeout, s.conns[k], Read(s.clock, dns))
         case None => None
         case Some(c) => Some(s.(conns := s.conns[k := c])))
    case Expire =>
      if !phase.Copying? then None else Some(s.(reapers := s.reapers[k := Reaper(a, Expired)]))
    case Uncount =>
      if !phase.Expired? then None
      else Some(s.(reapers := s.reapers[k := Reaper(a, Uncounted)], removed := s.removed + 1))
    case Delete =>
      if !phase.Uncounted? then None
      else
        var got := if a in s.table then Some(s.table[a]) else None;
        Some(s.(reapers := s.reapers[k := Reaper(a, Deleted(got))], table := s.table - {a}))
    case CloseSocket =>
      if !phase.Deleted? then None
      else
        var closed := if phase.got.Some? then multiset{phase.got.value} else multiset{};
        Some(s.(reapers := s.reapers[k := Reaper(a, SocketClosed)], closes := s.closes + closed))
    case Leave =>
      if !phase.SocketClosed? || s.running == 0 then None
      else Some(s.(reapers := s.reapers[k := Reaper(a, Gone)], running := s.running - 1))
  }

  /** The next state, or `None` if the step cannot be taken now. */
  function Next(timeout: Time, s: State, step: Step): Option<State> {
    match step
    case Tick(now) => if now >= s.clock then Some(s.(clock := now)) else None
    case Loop(l) => NextOfLoop(timeout, s, l)
    case Reap(k, r) => if k in s.reapers then NextOfReaper(timeout, s, k, r) else None
  }

  /** `natmap.Close` for the sockets of the table. */
  function ExpireAll(conns: map<Socket, Conn>, socks: set<Socket>, now: Time): (r: map<Socket, Conn>)
    ensures r.Keys == conns.Keys
    ensures forall k :: k in conns ==> r[k] == if k in socks then conns[k].(socket := Some(now)) else conns[k]
  {
    map k | k in conns :: if k in socks then conns[k].(socket := Some(now)) else conns[k]
  }

  function Run(timeout: Time, steps: seq<Step>): Option<State> {
    if steps == [] then Some(START)
    else
      match Run(timeout, steps[..|steps| - 1])
      case None => None
      case Some(s) => Next(timeout, s, steps[|steps| - 1])
  }

  // --------------------------------------------------------------- invariants

  /** A reaper that has yet to delete its entry. */
  predicate Owns(r: Reaper) {
    r.phase.Copying? || r.phase.Expired? || r.phase.Uncounted?
  }

  /** Table and reapers correspond one to one, but for an entry that is being added. */
  ghost predicate TableInv(s: State) {
    && (forall a :: a in s.table ==>
          var k := s.table[a];
          (Adding(s.loop) && s.loop.addr == a && s.loop.sock == k)
          || (k in s.reapers && s.reapers[k].addr == a && Owns(s.reapers[k])))
    && (forall k :: k in s.reapers && Owns(s.reapers[k]) ==>
          s.reapers[k].addr in s.table && s.table[s.reapers[k].addr] == k)
    && (Adding(s.loop) ==> s.loop.addr in s.table && s.table[s.loop.addr] == s.loop.sock
                           && s.loop.sock !in s.reapers && s.loop.sock in s.conns)
    && (s.loop.Missing? ==> s.loop.addr !in s.table)
    && (s.loop.Forwarding? ==> s.loop.sock in s.conns)
    && (forall k :: k in s.reapers ==> k in s.conns)
    && (forall k :: k in s.conns ==> k in s.reapers || (Adding(s.loop) && s.loop.sock == k))
  }

  /** A step of a write concerns the connection that is forwarded to, and no other. */
  lemma WritesOn(timeout: Time, s: State, e: Event)
    requires s.loop.Forwarding? && NextOfLoop(timeout, s, Write(e)).Some?
    ensures s.loop.sock in s.conns && !e.Read? && !e.CloseAll?
    ensures var k, c := s.loop.sock, s.conns[s.loop.sock];
      && NatDeadline.Step(timeout, c, e).Some?
      && NextOfLoop(timeout, s, Write(e))
         == Some(s.(conns := s.conns[k := NatDeadline.Step(timeout, c, e).value]))
      && (e.BeginWrite? ==> c.phase == Idle)
      && (e.Extend? ==>
            e.now == s.clock && c.phase == Begun(e.dns) && NatDeadline.Step(timeout, c, e).value.phase.Extended?)
      && (e.Apply? ==> c.phase.Extended?)
  {
  }

  /** A write of the loop goes through its three parts, whatever the reapers do. */
  lemma WriteGoesOn(timeout: Time, s: State, e: Event)
    requires s.loop.Forwarding? && s.loop.sock in s.conns
    requires match s.conns[s.loop.sock].phase
      case Idle => e.BeginWrite?
      case Begun(dns) => e == Extend(s.clock, dns)
      case Extended(_) => e == Apply
    ensures NextOfLoop(timeout, s, Write(e)).Some?
  {
  }

  // ------------------------------------------------------------------ the map

  /**
   * `natmap`. Every method runs under the lock of the map and is one step of
   * the protocol: `Get` and `Set` of the serve loop, `Del` of a reaper.
   */
  class NatMap {
    const timeout: Time
    var keyConn: map<Addr, NatConn>
    /** Every connection this map ever made; a goroutine may still use one that has been deleted. */
    ghost var made: map<Socket, NatConn>

    constructor (timeout: Time)
      ensures Represents(START) && this.timeout == timeout && made == map[]
    {
      this.timeout, keyConn, made := timeout, map[], map[];
    }

    /** Is this map the table of the state, and are the connections it made those of the state? */
    ghost predicate Represents(s: State)
      reads this, made.Values
    {
      TableOf(s) && forall k :: k in made ==> made[k].View() == s.conns[k]
    }

    ghost predicate TableOf(s: State)
      reads this
    {
      && made.Keys == s.conns.Keys && s.table.Keys == keyConn.Keys
      && (forall k :: k in made ==> made[k].socket == k && made[k].defaultTimeout == timeout)
      && (forall a :: a in keyConn ==> s.table[a] in made && keyConn[a] == made[s.table[a]])
    }

    lemma SameTable(s: State, k: Socket, c: Conn)
      requires TableOf(s) && k in s.conns
      ensures TableOf(s.(conns := s.conns[k := c])) && made.Keys == s.conns.Keys
      ensures forall j :: j in made ==> made[j].socket == j && made[j].defaultTimeout == timeout
    {
    }

    /** The entry of a client; null if it must be made. */
    method Get(key: Addr, ghost s: State) returns (entry: NatConn?)
      requires Represents(s) && s.loop.Waiting?
      ensures if key in keyConn then entry == keyConn[key] else entry == null
      ensures entry != null ==> entry.socket in made && made[entry.socket] == entry
      ensures var next := Next(timeout, s, Loop(Receive(key)));
        && next == Some(s.(loop := if entry == null then Missing(key) else Forwarding(entry.socket)))
        && Represents(next.value)
    {
      entry := if key in keyConn then keyConn[key] else null;
    }

    /** A new connection becomes the entry of a client that has none. */
    method Set(key: Addr, socket: Socket, ghost s: State) returns (entry: NatConn)
      requires Represents(s) && s.loop == Missing(key) && socket !in s.conns
      modifies this`keyConn, this`made
      ensures fresh(entry) && entry.socket == socket && entry.defaultTimeout == timeout
      ensures keyConn == old(keyConn)[key := entry] && made == old(made)[socket := entry]
      ensures var next := Next(timeout, s, Loop(Place(socket)));
        next.Some? && next.value.loop == Placed(key, socket) && Represents(next.value)
    {
      entry := new NatConn(socket, timeout);
      keyConn, made := keyConn[key := entry], made[socket := entry];
    }

    /** Deletes the entry of a client; for a reaper, that is the connection that the reaper served. */
    method Del(key: Addr, ghost s: State, ghost k: Socket) returns (entry: NatConn?)
      requires Represents(s) && k in s.reapers && s.reapers[k] == Reaper(key, Uncounted)
      modifies this`keyConn
      ensures keyConn == old(keyConn) - {key}
      ensures if key in old(keyConn) then entry == old(keyConn)[key] else entry == null
      ensures var next := Next(timeout, s, Reap(k, Delete));
        && next.Some? && Represents(next.value)
        && next.value.reapers[k].phase == Deleted(if entry == null then None else Some(entry.socket))
      ensures TableInv(s) ==> entry != null && entry.socket == k && entry == made[k]
    {
      entry := null;
      if key in keyConn {
        entry := keyConn[key];
        keyConn := keyConn - {key};
      }
    }

    /** Expires all sockets of the map, in any order, and changes nothing else. */
    method ExpireEach(now: Time)
      modifies keyConn.Values
      ensures forall a :: a in keyConn ==> keyConn[a].View() == old(keyConn[a].View()).(socket := Some(now))
    {
      var todo := keyConn.Keys;
      while todo != {}
        invariant todo <= keyConn.Keys
        invariant forall c :: c in keyConn.Values ==>
                    c.View() == old(c.View()) || c.View() == old(c.View()).(socket := Some(now))
        invariant forall k :: k in keyConn && k !in todo ==>
                    keyConn[k].View() == old(keyConn[k].View()).(socket := Some(now))
        decreases |todo|
      {
        var k :| k in todo;
        todo := todo - {k};
        assert keyConn[k] in keyConn.Values;
        keyConn[k].SetReadDeadline(now);
      }
    }

    /** `natmap.Close`: what the protocol does when the loop ends. */
    method Close(now: Time, ghost s: State)
      requires Represents(s) && s.loop.Closing? && s.clock == now
      modifies keyConn.Values
      ensures var next := Next(timeout, s, Loop(CloseMap)); next.Some? && Represents(next.value)
    {
      ExpireEach(now);
      assert forall a :: a in s.table ==> s.table[a] in s.table.Values;
    }

    lemma AllMade(s: State)
      requires Represents(s)
      ensures made.Keys == s.conns.Keys && keyConn.Values <= made.Values
    {
    }

    /** One of the three parts of `onWrite`, on the connection that the serve loop forwards to. */
    method WritePart(entry: NatConn, e: Event, moved: bool, ghost s: State) returns (movedNow: bool)
      requires Represents(s) && IsMade(made, entry) && s.loop == Forwarding(entry.socket)
      requires match s.conns[entry.socket].phase
        case Idle => e.BeginWrite?
        case Begun(dns) => e == Extend(s.clock, dns)
        case Extended(m) => e == Apply && m == moved
      modifies entry
      ensures var next := Next(timeout, s, Loop(Write(e)));
        && next.Some? && Represents(next.value)
        && (e.Extend? ==> next.value.conns[entry.socket].phase == Extended(movedNow))
    {
      hide NextOfLoop, NatDeadline.Step, TableOf;
      AllMade(s);
      WriteGoesOn(timeout, s, e);
      WritesOn(timeout, s, e);
      SameTable(s, entry.socket, NatDeadline.Step(timeout, s.conns[entry.socket], e).value);
      movedNow := moved;
      match e {
        case BeginWrite(dns) => entry.DisableFastClose(dns);
        case Extend(now, dns) => movedNow := entry.ExtendDeadline(now, dns);
        case Apply => entry.ApplyDeadline(moved);
      }
    }

    /** `onRead` of a reaper, on the connection that it serves, in the table or not. */
    method ReadPart(entry: NatConn, now: Time, dns: bool, ghost s: State)
      requires Represents(s) && IsMade(made, entry) && s.clock == now
      requires entry.socket in s.reapers && s.reapers[entry.socket].phase.Copying?
      modifies entry
      ensures var next := Next(timeout, s, Reap(entry.socket, ReadOne(dns))); next.Some? && Represents(next.value)
    {
      entry.OnRead(now, dns);
    }
  }

  // ------------------------------------------------- the protocol on the objects

  /** What the serve loop refers to: the client at hand, its connection, and whether its deadline has been moved. */
  ghost predicate LoopHolds(addr: Addr, target: NatConn?, moved: bool, made: map<Socket, NatConn>, s: State) {
    && (s.loop.Missing? || Adding(s.loop) ==> s.loop.addr == addr)
    && (s.loop.Forwarding? || Adding(s.loop) ==> target != null && IsMade(made, target) && target.socket == s.loop.sock)
    && (forall k :: k in s.conns ==> s.conns[k].phase.Idle? || s.loop == Forwarding(k))
    && (forall k :: k in s.conns && s.conns[k].phase.Extended? ==> s.conns[k].phase.moved == moved)
  }

  /** What the reapers refer to: the connection each of them serves, and the client for whom it does so. */
  ghost predicate ReapersHold(served: map<Socket, NatConn>, clients: map<Socket, Addr>, made: map<Socket, NatConn>,
      s: State)
  {
    && served.Keys == s.reapers.Keys == clients.Keys
    && forall k :: k in served ==>
         served[k].socket == k && IsMade(made, served[k]) && clients[k] == s.reapers[k].addr
  }

  /** Is this one of the connections made? */
  ghost predicate IsMade(made: map<Socket, NatConn>, entry: NatConn) {
    entry.socket in made && made[entry.socket] == entry
  }

  lemma SameReapers(served: map<Socket, NatConn>, clients: map<Socket, Addr>, made: map<Socket, NatConn>,
      s: State, next: State)
    requires ReapersHold(served, clients, made, s) && next.reapers == s.reapers
    ensures ReapersHold(served, clients, made, next)
  {
  }

  /** The loop holds the connection it has just placed, and the reapers theirs. */
  lemma Placing(addr: Addr, before: NatConn?, target: NatConn, moved: bool, made: map<Socket, NatConn>,
      served: map<Socket, NatConn>, clients: map<Socket, Addr>, timeout: Time, s: State)
    requires LoopHolds(addr, before, moved, made, s) && ReapersHold(served, clients, made, s)
    requires target.socket !in made && NextOfLoop(timeout, s, Place(target.socket)).Some?
    ensures var k := target.socket;
      && LoopHolds(addr, target, moved, made[k := target], NextOfLoop(timeout, s, Place(k)).value)
      && ReapersHold(served, clients, made[k := target], NextOfLoop(timeout, s, Place(k)).value)
  {
  }

  lemma LoopAddr(addr: Addr, target: NatConn?, moved: bool, made: map<Socket, NatConn>, s: State)
    requires LoopHolds(addr, target, moved, made, s)
    ensures s.loop.Missing? ==> s.loop.addr == addr
  {
  }

  lemma LoopSpawns(addr: Addr, target: NatConn?, moved: bool, made: map<Socket, NatConn>, timeout: Time, s: State)
    requires LoopHolds(addr, target, moved, made, s) && NextOfLoop(timeout, s, Spawn).Some?
    ensures LoopHolds(addr, target, moved, made, NextOfLoop(timeout, s, Spawn).value)
    ensures target != null && IsMade(made, target) && target.socket == s.loop.sock && addr == s.loop.addr
  {
    hide NatDeadline.Step;
  }

  lemma LoopCloses(addr: Addr, target: NatConn?, moved: bool, made: map<Socket, NatConn>, timeout: Time, s: State)
    requires LoopHolds(addr, target, moved, made, s) && NextOfLoop(timeout, s, CloseMap).Some?
    ensures LoopHolds(addr, target, moved, made, NextOfLoop(timeout, s, CloseMap).value)
  {
  }

  /** The loop does not notice a step of a reaper. */
  lemma LoopUndisturbed(addr: Addr, target: NatConn?, moved: bool, made: map<Socket, NatConn>, timeout: Time,
      s: State, k: Socket, r: ReaperStep)
    requires LoopHolds(addr, target, moved, made, s) && k in s.reapers && NextOfReaper(timeout, s, k, r).Some?
    ensures LoopHolds(addr, target, moved, made, NextOfReaper(timeout, s, k, r).value)
  {
  }

  /** A reaper goes on serving the same connection for the same client. */
  lemma ReaperMoves(served: map<Socket, NatConn>, clients: map<Socket, Addr>, made: map<Socket, NatConn>,
      timeout: Time, s: State, k: Socket, r: ReaperStep)
    requires ReapersHold(served, clients, made, s) && k in s.reapers && NextOfReaper(timeout, s, k, r).Some?
    ensures k in served && served[k].socket == k && IsMade(made, served[k])
    ensures k in clients && clients[k] == s.reapers[k].addr
    ensures ReapersHold(served, clients, made, NextOfReaper(timeout, s, k, r).value)
  {
    hide NatDeadline.Step;
  }

  /** The serve loop and the reapers, with the references that they hold. */
  class Threads {
    const nm: NatMap
    var clock: Time
    /** The client of the packet at hand, its connection, and whether its deadline has been moved. */
    var addr: Addr
    var target: NatConn?
    var moved: bool
    /** What each reaper serves, and for whom. */
    var served: map<Socket, NatConn>
    var clients: map<Socket, Addr>

    constructor (timeout: Time)
      ensures nm.timeout == timeout && fresh(nm) && nm.made == map[] && Follows(START)
    {
      nm := new NatMap(timeout);
      clock, addr, target, moved, served, clients := 0, [], null, false, map[], map[];
    }

    /** Are the objects in this state of the protocol? */
    ghost predicate Follows(s: State)
      reads this, nm, nm.made.Values
    {
      && nm.Represents(s) && clock == s.clock
      && LoopHolds(addr, target, moved, nm.made, s) && ReapersHold(served, clients, nm.made, s)
    }

    lemma ViewOf(s: State, k: Socket)
      requires Follows(s) && k in nm.made
      ensures k in s.conns && nm.made[k].View() == s.conns[k]
    {
    }

    lemma SameObjects(s: State, next: State)
      requires nm.Represents(s) && next.table == s.table && next.conns == s.conns
      ensures nm.Represents(next)
    {
    }

    /** Steps of the loop that concern neither the map nor a connection. */
    lemma LoopAlone(l: LoopStep, s: State)
      requires Follows(s) && NextOfLoop(nm.timeout, s, l).Some?
      requires l.Drop? || l.Count? || l.Register? || l.Finish? || l.Stop? || l.Return?
      ensures Follows(NextOfLoop(nm.timeout, s, l).value)
    {
      hide NatMap.Represents, NatDeadline.Step;
      SameObjects(s, NextOfLoop(nm.timeout, s, l).value);
    }

    method DoReceive(a: Addr, ghost s: State)
      requires Follows(s) && Next(nm.timeout, s, Loop(Receive(a))).Some?
      modifies this`addr, this`target
      ensures Follows(Next(nm.timeout, s, Loop(Receive(a))).value)
    {
      hide ReapersHold, NatMap.Represents, NatDeadline.Step;
      addr := a;
      target := nm.Get(a, s);
      SameReapers(served, clients, nm.made, s, Next(nm.timeout, s, Loop(Receive(a))).value);
    }

    method DoPlace(sock: Socket, ghost s: State)
      requires Follows(s) && Next(nm.timeout, s, Loop(Place(sock))).Some?
      modifies this`target, nm`keyConn, nm`made
      ensures Follows(Next(nm.timeout, s, Loop(Place(sock))).value)
      ensures fresh(nm.made.Values - old(nm.made.Values))
    {
      hide LoopHolds, ReapersHold, NatMap.Represents, NatDeadline.Step;
      nm.AllMade(s);
      ghost var before, made := target, nm.made;
      LoopAddr(addr, target, moved, made, s);
      target := nm.Set(addr, sock, s);
      Placing(addr, before, target, moved, made, served, clients, nm.timeout, s);
    }

    method DoSpawn(ghost s: State)
      requires Follows(s) && Next(nm.timeout, s, Loop(Spawn)).Some?
      modifies this`served, this`clients
      ensures Follows(Next(nm.timeout, s, Loop(Spawn)).value)
    {
      hide LoopHolds, NatMap.Represents, NatDeadline.Step;
      LoopSpawns(addr, target, moved, nm.made, nm.timeout, s);
      served, clients := served[target.socket := target], clients[target.socket := addr];
      SameObjects(s, Next(nm.timeout, s, Loop(Spawn)).value);
    }

    method DoWrite(e: Event, ghost s: State)
      requires Follows(s) && Next(nm.timeout, s, Loop(Write(e))).Some?
      modifies this`moved, nm.made.Values
      ensures Follows(Next(nm.timeout, s, Loop(Write(e))).value)
    {
      hide ReapersHold, NatMap.Represents;
      WritesOn(nm.timeout, s, e);
      moved := nm.WritePart(target, e, moved, s);
      SameReapers(served, clients, nm.made, s, Next(nm.timeout, s, Loop(Write(e))).value);
    }

    method DoClose(ghost s: State)
      requires Follows(s) && Next(nm.timeout, s, Loop(CloseMap)).Some?
      modifies nm.made.Values
      ensures Follows(Next(nm.timeout, s, Loop(CloseMap)).value)
    {
      hide LoopHolds, ReapersHold, NatMap.Represents, NatDeadline.Step;
      nm.AllMade(s);
      LoopCloses(addr, target, moved, nm.made, nm.timeout, s);
      nm.Close(clock, s);
      SameReapers(served, clients, nm.made, s, Next(nm.timeout, s, Loop(CloseMap)).value);
    }

    /** Takes one step of the serve loop. */
    method DoLoop(l: LoopStep, ghost s: State)
      requires Follows(s) && Next(nm.timeout, s, Loop(l)).Some?
      modifies this, nm, nm.made.Values
      ensures Follows(Next(nm.timeout, s, Loop(l)).value)
      ensures fresh(nm.made.Values - old(nm.made.Values))
    {
      hide Follows, NextOfLoop;
      match l {
        case Receive(a) => DoReceive(a, s);
        case Place(sock) => DoPlace(sock, s);
        case Spawn => DoSpawn(s);
        case Write(e) => DoWrite(e, s);
        case CloseMap => DoClose(s);
        case _ => LoopAlone(l, s);
      }
    }

    /** Takes one step of the reaper of socket k. */
    method DoReap(k: Socket, r: ReaperStep, ghost s: State)
      requires Follows(s) && Next(nm.timeout, s, Reap(k, r)).Some?
      modifies nm`keyConn, nm.made.Values
      ensures Follows(Next(nm.timeout, s, Reap(k, r)).value)
      ensures nm.made == old(nm.made)
    {
      hide NatMap.Represents;
      hide LoopHolds, ReapersHold, NatDeadline.Step;
      LoopUndisturbed(addr, target, moved, nm.made, nm.timeout, s, k, r);
      ReaperMoves(served, clients, nm.made, nm.timeout, s, k, r);
      match r {
        case ReadOne(dns) =>
          nm.ReadPart(served[k], clock, dns, s);
        case Delete =>
          var entry := nm.Del(clients[k], s, k);
        case _ =>
          SameObjects(s, Next(nm.timeout, s, Reap(k, r)).value);
      }
    }

    /** Takes one step. */
    method Do(step: Step, ghost s: State)
      requires Follows(s) && Next(nm.timeout, s, step).Some?
      modifies this, nm, nm.made.Values
      ensures Follows(Next(nm.timeout, s, step).value)
      ensures fresh(nm.made.Values - old(nm.made.Values))
    {
      hide NextOfLoop, NextOfReaper;
      match step {
        case Tick(now) =>
          clock := now;
        case Loop(l) =>
          hide Follows;
          DoLoop(l, s);
        case Reap(k, r) =>
          hide Follows;
          DoReap(k, r, s);
      }
    }
  }

  /**
   * The objects follow the protocol through every interleaving: the map is its
   * table, and every connection made, deleted or not, is in its deadline state.
   */
  method Play(timeout: Time, steps: seq<Step>) returns (t: Threads)
    requires Run(timeout, steps).Some?
    ensures t.nm.timeout == timeout && t.Follows(Run(timeout, steps).value)
    ensures forall k :: k in t.nm.made ==>
              NatDeadline.Run(timeout, TraceOf(timeout, steps, k)) == Some(t.nm.made[k].View())
  {
    hide Next, Threads.Follows, TraceOf, NatDeadline.Run;
    t := new Threads(timeout);
    var i := 0;
    while i < |steps|
      invariant i <= |steps| && Run(timeout, steps[..i]).Some? && t.nm.timeout == timeout
      invariant fresh(t) && fresh(t.nm) && fresh(t.nm.made.Values)
      invariant t.Follows(Run(timeout, steps[..i]).value)
    {
      RunOfPrefix(timeout, steps, i + 1, 0);
      assert steps[..i + 1][..i] == steps[..i];
      t.Do(steps[i], Run(timeout, steps[..i]).value);
      i := i + 1;
    }
    assert steps[..i] == steps;
    ghost var s := Run(timeout, steps).value;
    forall k | k in t.nm.made
      ensures NatDeadline.Run(timeout, TraceOf(timeout, steps, k)) == Some(t.nm.made[k].View())
    {
      EntriesRunDeadlineMachine(timeout, steps, s, k);
      t.ViewOf(s, k);
    }
  }

  // ------------------------------------------------------ the other invariants

  /** What a reaper deleted was its own entry, and sockets are closed once, by their reapers. */
  ghost predicate CloseInv(s: State) {
    && (forall k :: k in s.reapers && s.reapers[k].phase.Deleted? ==> s.reapers[k].phase.got == Some(k))
    && (forall k: Socket :: s.closes[k]
          == if k in s.reapers && (s.reapers[k].phase.SocketClosed? || s.reapers[k].phase.Gone?) then 1 else 0)
  }

  /** The reapers that have not reached `RemoveUDPNatEntry`. */
  function InMetric(reapers: map<Socket, Reaper>): set<Socket> {
    set k | k in reapers && (reapers[k].phase.Copying? || reapers[k].phase.Expired?)
  }

  /** The reapers that have not left. */
  function Present(reapers: map<Socket, Reaper>): set<Socket> {
    set k | k in reapers && !reapers[k].phase.Gone?
  }

  ghost predicate CountInv(s: State) {
    && s.added == s.removed + |InMetric(s.reapers)| + (if s.loop.Counted? || s.loop.Registered? then 1 else 0)
    && s.running == |Present(s.reapers)| + (if s.loop.Returned? then 0 else 1) + (if s.loop.Registered? then 1 else 0)
  }

  /** Once the map has been closed, all sockets still being read have expired. */
  ghost predicate DeadlineInv(s: State) {
    s.loop.Closed? || s.loop.Returned? ==>
      forall k :: k in s.reapers && s.reapers[k].phase.Copying? ==>
        k in s.conns && s.conns[k].socket.Some? && s.conns[k].socket.value <= s.clock
  }

  lemma TableStep(timeout: Time, s: State, step: Step, s': State)
    requires TableInv(s) && Next(timeout, s, step) == Some(s')
    ensures TableInv(s')
  {
    hide NatDeadline.Step;
    match step {
      case Tick(now) =>
      case Loop(l) => TableLoopStep(timeout, s, l, s');
      case Reap(k, r) => TableReaperStep(timeout, s, k, r, s');
    }
  }

  lemma TableLoopStep(timeout: Time, s: State, l: LoopStep, s': State)
    requires TableInv(s) && NextOfLoop(timeout, s, l) == Some(s')
    ensures TableInv(s')
  {
    hide NatDeadline.Step;
  }

  lemma TableReaperStep(timeout: Time, s: State, k: Socket, r: ReaperStep, s': State)
    requires TableInv(s) && k in s.reapers && NextOfReaper(timeout, s, k, r) == Some(s')
    ensures TableInv(s')
  {
    hide NatDeadline.Step;
  }

  /** A step of the loop leaves all reapers alone, but for starting one. */
  lemma LoopKeepsReapers(timeout: Time, s: State, l: LoopStep, s': State)
    requires NextOfLoop(timeout, s, l) == Some(s')
    ensures s'.closes == s.closes && s'.removed == s.removed && s'.clock == s.clock
    ensures if l.Spawn?
            then s.loop.Registered? && s'.reapers == s.reapers[s.loop.sock := Reaper(s.loop.addr, Copying)]
            else s'.reapers == s.reapers
  {
    hide NatDeadline.Step;
  }

  /** A step of a reaper moves that reaper only. */
  lemma OneReaperMoves(timeout: Time, s: State, k: Socket, r: ReaperStep, s': State)
    requires k in s.reapers && NextOfReaper(timeout, s, k, r) == Some(s')
    ensures k in s'.reapers && s'.reapers == s.reapers[k := s'.reapers[k]]
    ensures s'.loop == s.loop && s'.added == s.added && s'.clock == s.clock
  {
    hide NatDeadline.Step;
  }

  lemma CloseStep(timeout: Time, s: State, step: Step, s': State)
    requires TableInv(s) && CloseInv(s) && Next(timeout, s, step) == Some(s')
    ensures CloseInv(s')
  {
    hide NatDeadline.Step;
    match step {
      case Tick(now) =>
      case Loop(l) =>
        LoopKeepsReapers(timeout, s, l, s');
        hide NextOfLoop;
      case Reap(k, r) => CloseReaperStep(timeout, s, k, r, s');
    }
  }

  lemma CloseReaperStep(timeout: Time, s: State, k: Socket, r: ReaperStep, s': State)
    requires CloseInv(s) && k in s.reapers && NextOfReaper(timeout, s, k, r) == Some(s')
    requires Owns(s.reapers[k]) ==> s.reapers[k].addr in s.table && s.table[s.reapers[k].addr] == k
    ensures CloseInv(s')
  {
    hide NatDeadline.Step, NextOfReaper;
    OneReaperMoves(timeout, s, k, r, s');
    DeletesOrCloses(timeout, s, k, r, s');
  }

  /** A reaper deletes its entry, closes what it deleted, or does neither. */
  lemma DeletesOrCloses(timeout: Time, s: State, k: Socket, r: ReaperStep, s': State)
    requires k in s.reapers && NextOfReaper(timeout, s, k, r) == Some(s')
    requires Owns(s.reapers[k]) ==> s.reapers[k].addr in s.table && s.table[s.reapers[k].addr] == k
    requires s.reapers[k].phase.Deleted? ==> s.reapers[k].phase.got == Some(k)
    ensures k in s'.reapers && (s'.reapers[k].phase.Deleted? ==> s'.reapers[k].phase.got == Some(k))
    ensures var before, after := s.reapers[k].phase, s'.reapers[k].phase;
      if r.CloseSocket?
      then before.Deleted? && after.SocketClosed? && s'.closes == s.closes + multiset{k}
      else (after.SocketClosed? || after.Gone? <==> before.SocketClosed? || before.Gone?) && s'.closes == s.closes
  {
    hide NatDeadline.Step;
  }

  /** Replacing one reaper changes the counts by at most that one. */
  lemma CountUpdate(reapers: map<Socket, Reaper>, k: Socket, r: Reaper)
    ensures var b, a := InMetric(reapers), InMetric(reapers[k := r]);
      |a| - (if r.phase.Copying? || r.phase.Expired? then 1 else 0) == |b| - (if k in b then 1 else 0)
    ensures var b, a := Present(reapers), Present(reapers[k := r]);
      |a| - (if r.phase.Gone? then 0 else 1) == |b| - (if k in b then 1 else 0)
  {
    CardUpdate(InMetric(reapers), InMetric(reapers[k := r]), k);
    CardUpdate(Present(reapers), Present(reapers[k := r]), k);
  }

  lemma CountStep(timeout: Time, s: State, step: Step, s': State)
    requires TableInv(s) && CountInv(s) && Next(timeout, s, step) == Some(s')
    ensures CountInv(s')
  {
    hide NatDeadline.Step;
    match step {
      case Tick(now) =>
      case Loop(l) => CountLoopStep(timeout, s, l, s');
      case Reap(k, r) => CountReaperStep(timeout, s, k, r, s');
    }
  }

  lemma CountLoopStep(timeout: Time, s: State, l: LoopStep, s': State)
    requires TableInv(s) && CountInv(s) && NextOfLoop(timeout, s, l) == Some(s')
    ensures CountInv(s')
  {
    hide NatDeadline.Step, InMetric, Present;
    LoopKeepsReapers(timeout, s, l, s');
    if l.Spawn? {
      NotCounted(s.reapers, s.loop.sock);
      CountUpdate(s.reapers, s.loop.sock, Reaper(s.loop.addr, Copying));
    }
  }

  lemma NotCounted(reapers: map<Socket, Reaper>, k: Socket)
    ensures k in InMetric(reapers) <==> k in reapers && (reapers[k].phase.Copying? || reapers[k].phase.Expired?)
    ensures k in Present(reapers) <==> k in reapers && !reapers[k].phase.Gone?
  {
  }

  lemma CountReaperStep(timeout: Time, s: State, k: Socket, r: ReaperStep, s': State)
    requires CountInv(s) && k in s.reapers && NextOfReaper(timeout, s, k, r) == Some(s')
    ensures CountInv(s')
  {
    hide NatDeadline.Step, InMetric, Present;
    OneReaperMoves(timeout, s, k, r, s');
    NotCounted(s.reapers, k);
    CountUpdate(s.reapers, k, s'.reapers[k]);
  }

  lemma DeadlineStep(timeout: Time, s: State, step: Step, s': State)
    requires TableInv(s) && DeadlineInv(s) && Next(timeout, s, step) == Some(s')
    ensures DeadlineInv(s')
  {
    match step {
      case Tick(now) =>
      case Loop(l) => DeadlineLoopStep(timeout, s, l, s');
      case Reap(k, r) => DeadlineReaperStep(timeout, s, k, r, s');
    }
  }

  /** Closing the map reaches every socket that is still being read. */
  lemma DeadlineLoopStep(timeout: Time, s: State, l: LoopStep, s': State)
    requires TableInv(s) && DeadlineInv(s) && NextOfLoop(timeout, s, l) == Some(s')
    ensures DeadlineInv(s')
  {
    hide NatDeadline.Step;
    if l.CloseMap? {
      forall k | k in s.reapers && s.reapers[k].phase.Copying?
        ensures k in s'.conns && s'.conns[k].socket == Some(s.clock)
      {
        assert Owns(s.reapers[k]);
        assert k in s.table.Values;
      }
    }
  }

  lemma DeadlineReaperStep(timeout: Time, s: State, k: Socket, r: ReaperStep, s': State)
    requires DeadlineInv(s) && k in s.reapers && NextOfReaper(timeout, s, k, r) == Some(s')
    ensures DeadlineInv(s')
  {
    OneReaperMoves(timeout, s, k, r, s');
  }

  ghost predicate Inv(s: State) {
    TableInv(s) && CloseInv(s) && CountInv(s) && DeadlineInv(s)
  }

  /** All of it holds in every interleaving. */
  lemma {:induction false} InvHolds(timeout: Time, steps: seq<Step>, s: State)
    requires Run(timeout, steps) == Some(s)
    ensures Inv(s)
  {
    if steps != [] {
      var front, last := steps[..|steps| - 1], steps[|steps| - 1];
      var b := Run(timeout, front).value;
      InvHolds(timeout, front, b);
      hide Next, TableInv, CloseInv, CountInv, DeadlineInv;
      TableStep(timeout, b, last, s);
      CloseStep(timeout, b, last, s);
      CountStep(timeout, b, last, s);
      DeadlineStep(timeout, b, last, s);
    }
  }

  // -------------------------------------------------------------- what follows

  /** No two reapers serve one client address at a time, and a reaper deletes its own entry only. */
  lemma OneEntryPerClient(timeout: Time, steps: seq<Step>, s: State, j: Socket, k: Socket)
    requires Run(timeout, steps) == Some(s) && j in s.reapers && k in s.reapers
    ensures Owns(s.reapers[j]) && Owns(s.reapers[k]) && s.reapers[j].addr == s.reapers[k].addr ==> j == k
    ensures s.reapers[k].phase.Uncounted? ==> s.reapers[k].addr in s.table && s.table[s.reapers[k].addr] == k
    ensures s.reapers[k].phase.Deleted? ==> s.reapers[k].phase.got == Some(k)
  {
    InvHolds(timeout, steps, s);
  }

  /** The entries reported as added but not removed are the running copies, up to one that is being added. */
  lemma MetricsAgree(timeout: Time, steps: seq<Step>, s: State)
    requires Run(timeout, steps) == Some(s)
    ensures s.added - s.removed
         == |InMetric(s.reapers)| + if s.loop.Counted? || s.loop.Registered? then 1 else 0
  {
    InvHolds(timeout, steps, s);
  }

  /** The wait group is positive whenever it is added to or released, so it never goes negative. */
  lemma RunningIsPositive(timeout: Time, steps: seq<Step>, s: State)
    requires Run(timeout, steps) == Some(s)
    ensures !s.loop.Returned? ==> s.running >= 1
    ensures forall k :: k in s.reapers && !s.reapers[k].phase.Gone? ==> s.running >= 1
  {
    InvHolds(timeout, steps, s);
    forall k | k in s.reapers && !s.reapers[k].phase.Gone? ensures s.running >= 1 {
      NotCounted(s.reapers, k);
      assert Present(s.reapers) == (Present(s.reapers) - {k}) + {k};
    }
  }

  /**
   * Once the wait group is down to zero the loop has returned, every reaper is
   * gone, the table is empty, the metrics balance, and each socket that was
   * ever put in the table has been closed exactly once.
   */
  lemma AllCleanedUp(timeout: Time, steps: seq<Step>, s: State)
    requires Run(timeout, steps) == Some(s) && s.running == 0
    ensures s.loop.Returned? && s.table == map[] && s.added == s.removed
    ensures forall k :: k in s.reapers ==> s.reapers[k].phase.Gone?
    ensures forall k :: k in s.conns <==> k in s.reapers
    ensures forall k: Socket :: s.closes[k] == if k in s.conns then 1 else 0
  {
    InvHolds(timeout, steps, s);
    assert Present(s.reapers) == {};
    forall k | k in s.reapers ensures s.reapers[k].phase.Gone? {
      NotCounted(s.reapers, k);
    }
    assert InMetric(s.reapers) == {};
  }

  /** After the map has been closed, every socket still being read has passed its deadline. */
  lemma NothingOutlivesClose(timeout: Time, steps: seq<Step>, s: State, k: Socket)
    requires Run(timeout, steps) == Some(s) && (s.loop.Closed? || s.loop.Returned?)
    requires k in s.reapers && s.reapers[k].phase.Copying?
    ensures k in s.conns && s.conns[k].socket.Some? && s.conns[k].socket.value <= s.clock
  {
    InvHolds(timeout, steps, s);
  }

  // -------------------------------------- every entry runs the deadline machine

  /** What a step means for the socket k: at most one event, at the time the clock shows. */
  function EventsOf(s: State, step: Step, k: Socket): seq<Event> {
    match step
    case Loop(Write(e)) => if s.loop.Forwarding? && s.loop.sock == k then [e] else []
    case Loop(CloseMap) => if k in s.table.Values then [CloseAll(s.clock)] else []
    case Reap(j, ReadOne(dns)) => if j == k then [Read(s.clock, dns)] else []
    case _ => []
  }

  /** The events of socket k in an interleaving of the serve loop and all reapers. */
  function TraceOf(timeout: Time, steps: seq<Step>, k: Socket): seq<Event>
    requires Run(timeout, steps).Some?
  {
    if steps == [] then []
    else
      var front := steps[..|steps| - 1];
      TraceOf(timeout, front, k) + EventsOf(Run(timeout, front).value, steps[|steps| - 1], k)
  }

  lemma CloseAllExpires(timeout: Time, c: Conn, now: Time)
    ensures NatDeadline.Step(timeout, c, CloseAll(now)) == Some(c.(socket := Some(now)))
  {
  }

  /** What one step means for one connection: nothing, its making, or one event of its own. */
  ghost predicate FollowsEvents(timeout: Time, b: State, s: State, k: Socket, events: seq<Event>) {
    && (k in b.conns ==> k in s.conns)
    && (k !in b.conns ==> events == [] && (k in s.conns ==> s.conns[k] == INITIAL))
    && (k in b.conns && events == [] ==> s.conns[k] == b.conns[k])
    && (k in b.conns && events != [] ==>
          |events| == 1 && NatDeadline.Step(timeout, b.conns[k], events[0]) == Some(s.conns[k]))
  }

  lemma EntryLoopStep(timeout: Time, b: State, l: LoopStep, s: State, k: Socket)
    requires NextOfLoop(timeout, b, l) == Some(s) && TableInv(b)
    ensures FollowsEvents(timeout, b, s, k, EventsOf(b, Loop(l), k))
  {
    hide NatDeadline.Step;
    if l == CloseMap && k in b.conns {
      CloseAllExpires(timeout, b.conns[k], b.clock);
    }
  }

  /** One step of the interleaving is the corresponding step, if any, of the connection. */
  lemma EntryStep(timeout: Time, b: State, step: Step, s: State, k: Socket)
    requires Next(timeout, b, step) == Some(s) && TableInv(b)
    ensures FollowsEvents(timeout, b, s, k, EventsOf(b, step, k))
  {
    hide NatDeadline.Step, NextOfLoop;
    match step {
      case Tick(now) =>
      case Loop(l) =>
        EntryLoopStep(timeout, b, l, s, k);
      case Reap(j, r) =>
    }
  }

  /**
   * In every interleaving the state of an entry is that of its own deadline
   * machine after exactly the events that the interleaving has for it.
   */
  lemma {:induction false} EntriesRunDeadlineMachine(timeout: Time, steps: seq<Step>, s: State, k: Socket)
    requires Run(timeout, steps) == Some(s)
    ensures k in s.conns ==> NatDeadline.Run(timeout, TraceOf(timeout, steps, k)) == Some(s.conns[k])
    ensures k !in s.conns ==> TraceOf(timeout, steps, k) == []
  {
    if steps != [] {
      var front, last := steps[..|steps| - 1], steps[|steps| - 1];
      var b := Run(timeout, front).value;
      EntriesRunDeadlineMachine(timeout, front, b, k);
      InvHolds(timeout, front, b);
      hide Next, TableInv, CloseInv, CountInv, DeadlineInv, NatDeadline.Step, EventsOf;
      EntryStep(timeout, b, last, s, k);
      var events := EventsOf(b, last, k);
      if events != [] {
        assert events == [events[0]];
        RunSnoc(timeout, TraceOf(timeout, front, k), events[0]);
      } else {
        assert TraceOf(timeout, steps, k) == TraceOf(timeout, front, k);
      }
    }
  }

  /** The times of the events never decrease, and none is later than `now`. */
  predicate InOrder(trace: seq<Event>, now: Time) {
    && (forall e :: e in trace && HasTime(e) ==> e.now <= now)
    && (forall i, j :: 0 <= i < j < |trace| && HasTime(trace[i]) && HasTime(trace[j]) ==> trace[i].now <= trace[j].now)
  }

  lemma OneMoreInOrder(trace: seq<Event>, now: Time, e: Event)
    requires InOrder(trace, now) && (HasTime(e) ==> e.now == now)
    ensures InOrder(trace + [e], now)
  {
    assert forall i :: 0 <= i < |trace| ==> trace[i] in trace;
  }

  /** The events of an entry come in the order of the clock, and none of them is ahead of it. */
  lemma {:induction false} TracesFollowTheClock(timeout: Time, steps: seq<Step>, s: State, k: Socket)
    requires Run(timeout, steps) == Some(s)
    ensures InOrder(TraceOf(timeout, steps, k), s.clock)
  {
    if steps != [] {
      var front, last := steps[..|steps| - 1], steps[|steps| - 1];
      var b := Run(timeout, front).value;
      TracesFollowTheClock(timeout, front, b, k);
      EventsAreNow(timeout, b, last, s, k);
      var t, events := TraceOf(timeout, front, k), EventsOf(b, last, k);
      if events != [] {
        assert events == [events[0]];
        OneMoreInOrder(t, b.clock, events[0]);
      } else {
        assert t + events == t;
      }
    }
  }

  lemma EventsAreNow(timeout: Time, b: State, step: Step, s: State, k: Socket)
    requires Next(timeout, b, step) == Some(s)
    ensures b.clock <= s.clock && |EventsOf(b, step, k)| <= 1
    ensures forall e :: e in EventsOf(b, step, k) && HasTime(e) ==> e.now == b.clock
  {
    hide NatDeadline.Step;
  }

  /** Until the map is closed, no entry is expired by it. */
  lemma {:induction false} NotClosedBefore(timeout: Time, steps: seq<Step>, s: State, k: Socket)
    requires Run(timeout, steps) == Some(s) && !s.loop.Closed? && !s.loop.Returned?
    ensures NotClosed(TraceOf(timeout, steps, k))
  {
    if steps != [] {
      var front, last := steps[..|steps| - 1], steps[|steps| - 1];
      var b := Run(timeout, front).value;
      ClosedForGood(timeout, b, last, s, k);
      NotClosedBefore(timeout, front, b, k);
    }
  }

  lemma ClosedForGood(timeout: Time, b: State, step: Step, s: State, k: Socket)
    requires Next(timeout, b, step) == Some(s) && !s.loop.Closed? && !s.loop.Returned?
    ensures !b.loop.Closed? && !b.loop.Returned?
    ensures forall e :: e in EventsOf(b, step, k) ==> !e.CloseAll?
  {
    hide NatDeadline.Step;
  }

  /** Any two writes to the entry come at different times. */
  predicate WritesAdvance(trace: seq<Event>) {
    forall i, j :: 0 <= i < j < |trace| && trace[i].Extend? && trace[j].Extend? ==> trace[i].now != trace[j].now
  }

  /**
   * In every interleaving: from the second write to an entry until the map is
   * closed, the deadline of its socket is its `readDeadline`, if the default
   * timeout is at least the DNS timeout and the clock advances between writes.
   */
  lemma EntriesFollowReadDeadline(timeout: Time, steps: seq<Step>, s: State, k: Socket)
    requires Run(timeout, steps) == Some(s) && k in s.conns && timeout >= DNS_TIMEOUT
    requires !s.loop.Closed? && !s.loop.Returned? && WritesAdvance(TraceOf(timeout, steps, k))
    requires SecondWriteDone(TraceOf(timeout, steps, k), s.conns[k])
    ensures SocketAgrees(s.conns[k])
  {
    hide TraceOf, Run, NatDeadline.Run, SecondWriteDone;
    EntriesRunDeadlineMachine(timeout, steps, s, k);
    TracesFollowTheClock(timeout, steps, s, k);
    NotClosedBefore(timeout, steps, s, k);
    var t := TraceOf(timeout, steps, k);
    assert Clocked(t);
    SocketInvariantHolds(timeout, t, s.conns[k]);
    AgreesAfterSecondWrite(timeout, t, s.conns[k]);
  }

  lemma AgreesAfterSecondWrite(timeout: Time, t: seq<Event>, c: Conn)
    requires SocketInvariant(timeout, t, c) && SecondWriteDone(t, c)
    ensures SocketAgrees(c)
  {
  }

  lemma {:induction false} RunOfPrefix(timeout: Time, steps: seq<Step>, m: nat, k: Socket)
    requires m <= |steps| && Run(timeout, steps).Some?
    ensures Run(timeout, steps[..m]).Some? && TraceOf(timeout, steps[..m], k) <= TraceOf(timeout, steps, k)
    decreases |steps|
  {
    hide Next, EventsOf;
    if m == |steps| {
      assert steps[..m] == steps;
    } else {
      var front := steps[..|steps| - 1];
      RunOfPrefix(timeout, front, m, k);
      assert front[..m] == steps[..m];
    }
  }

  /**
   * In every interleaving, in terms of the entry's own events: what its
   * `readDeadline` is, and when a reaper's read closes it fast.
   */
  lemma EntryFields(timeout: Time, steps: seq<Step>, s: State, k: Socket, dns: bool)
    requires Run(timeout, steps) == Some(s) && k in s.conns
    ensures s.conns[k].readDeadline == LatestDeadline(timeout, TraceOf(timeout, steps, k))
    ensures var t := TraceOf(timeout, steps, k);
      FastCloses(s.conns[k], Read(s.clock, dns)) <==> dns && Reads(t) == 0 && Writes(t) <= 1 && OnlyDnsWrites(t)
  {
    EntriesRunDeadlineMachine(timeout, steps, s, k);
    StateOfRun(timeout, TraceOf(timeout, steps, k), s.conns[k]);
  }

  /** The reader of socket k closes it fast at the i-th step. */
  predicate FastClosesAt(timeout: Time, steps: seq<Step>, i: nat, k: Socket)
    requires i < |steps|
  {
    && Run(timeout, steps[..i]).Some?
    && steps[i].Reap? && steps[i].sock == k && steps[i].r.ReadOne?
    && var s := Run(timeout, steps[..i]).value;
       k in s.conns && FastCloses(s.conns[k], Read(s.clock, steps[i].r.dns))
  }

  /** In every interleaving, each entry is closed fast at most once. */
  lemma FastCloseOncePerEntry(timeout: Time, steps: seq<Step>, i: nat, j: nat, k: Socket)
    requires i < j < |steps| && Run(timeout, steps).Some? && FastClosesAt(timeout, steps, i, k)
    ensures !FastClosesAt(timeout, steps, j, k)
  {
    hide Run, TraceOf, Next, NatDeadline.Run, NatDeadline.Step, FastCloses;
    if FastClosesAt(timeout, steps, j, k) {
      var si, sj := Run(timeout, steps[..i]).value, Run(timeout, steps[..j]).value;
      var ei, ej := Read(si.clock, steps[i].r.dns), Read(sj.clock, steps[j].r.dns);
      var ti, tj := TraceOf(timeout, steps[..i], k), TraceOf(timeout, steps[..j], k);
      assert steps[..j][..i] == steps[..i];
      TraceAt(timeout, steps[..j], i, k);
      assert ti + [ei] <= tj;
      EntriesRunDeadlineMachine(timeout, steps[..i], si, k);
      EntriesRunDeadlineMachine(timeout, steps[..j], sj, k);
      var t := tj + [ej];
      assert t[..|ti|] == ti && t[..|tj|] == tj && t[|ti|] == ei;
      FastCloseOnce(timeout, t, |ti|, |tj|, si.conns[k], sj.conns[k]);
    }
  }

  /** The event of the i-th step follows the events before it. */
  lemma TraceAt(timeout: Time, steps: seq<Step>, i: nat, k: Socket)
    requires i < |steps| && Run(timeout, steps).Some?
    ensures Run(timeout, steps[..i]).Some?
    ensures TraceOf(timeout, steps[..i], k) + EventsOf(Run(timeout, steps[..i]).value, steps[i], k)
         <= TraceOf(timeout, steps, k)
  {
    hide Next, EventsOf;
    RunOfPrefix(timeout, steps, i + 1, k);
    assert steps[..i + 1][..i] == steps[..i];
  }

  // ------------------------------------------------------------ nothing blocks it

  lemma RunMore(timeout: Time, steps: seq<Step>, step: Step)
    requires Run(timeout, steps).Some?
    ensures Run(timeout, steps + [step]) == Next(timeout, Run(timeout, steps).value, step)
  {
    hide Next;
    assert (steps + [step])[..|steps|] == steps;
  }

  function PhaseRank(phase: Phase): nat {
    match phase
    case Idle => 0
    case Extended(_) => 1
    case Begun(_) => 2
  }

  /** How far the serve loop is from its end. */
  function LoopRank(s: State): nat {
    match s.loop
    case Returned => 0
    case Closed => 1
    case Closing => 2
    case Waiting => 3
    case Missing(_) => 4
    case Forwarding(k) =>
      4 + if k !in s.conns then 0 else PhaseRank(s.conns[k].phase)
    case Registered(_, _) => 7
    case Counted(_, _) => 8
    case Placed(_, _) => 9
  }

  /** The next step of the loop on its way out. */
  lemma LoopWayOut(timeout: Time, s: State) returns (l: LoopStep)
    requires TableInv(s) && s.running > 0 && !s.loop.Returned?
    ensures NextOfLoop(timeout, s, l).Some? && LoopRank(NextOfLoop(timeout, s, l).value) < LoopRank(s)
  {
    match s.loop {
      case Closed => l := Return;
      case Closing => l := CloseMap;
      case Waiting => l := LoopStep.Stop;
      case Missing(_) => l := Drop;
      case Forwarding(k) =>
        match s.conns[k].phase {
          case Idle => l := Finish;
          case Extended(_) => l := Write(Apply);
          case Begun(dns) => l := Write(Extend(s.clock, dns));
        }
      case Registered(_, k) => l := Spawn;
      case Counted(_, _) => l := Register;
      case Placed(_, _) => l := Count;
    }
  }

  /** The loop can return. */
  lemma {:induction false} LoopCanReturn(timeout: Time, steps: seq<Step>, s: State) returns (more: seq<Step>, e: State)
    requires Run(timeout, steps) == Some(s)
    ensures Run(timeout, steps + more) == Some(e) && e.loop.Returned?
    decreases LoopRank(s)
  {
    hide Run, Next, NextOfLoop, LoopRank, CloseInv, CountInv, DeadlineInv, TableInv;
    if s.loop.Returned? {
      assert steps + [] == steps;
      return [], s;
    }
    InvHolds(timeout, steps, s);
    RunningIsPositive(timeout, steps, s);
    var l := LoopWayOut(timeout, s);
    LoopIsNext(timeout, s, l);
    RunMore(timeout, steps, Loop(l));
    more, e := LoopCanReturn(timeout, steps + [Loop(l)], NextOfLoop(timeout, s, l).value);
    assert steps + ([Loop(l)] + more) == steps + [Loop(l)] + more;
    more := [Loop(l)] + more;
  }

  lemma LoopIsNext(timeout: Time, s: State, l: LoopStep)
    ensures Next(timeout, s, Loop(l)) == NextOfLoop(timeout, s, l)
  {
  }

  function ReaperRank(phase: ReaperPhase): nat {
    match phase
    case Copying => 5
    case Expired => 4
    case Uncounted => 3
    case Deleted(_) => 2
    case SocketClosed => 1
    case Gone => 0
  }

  /** The next step of a reaper on its way out. */
  lemma ReaperWayOut(timeout: Time, s: State, k: Socket) returns (r: ReaperStep)
    requires s.running > 0 && k in s.reapers && !s.reapers[k].phase.Gone?
    ensures var next := Next(timeout, s, Reap(k, r));
      && next.Some? && next.value.loop == s.loop && k in next.value.reapers
      && next.value.reapers == s.reapers[k := next.value.reapers[k]]
      && ReaperRank(next.value.reapers[k].phase) < ReaperRank(s.reapers[k].phase)
  {
    match s.reapers[k].phase {
      case Copying => r := Expire;
      case Expired => r := Uncount;
      case Uncounted => r := Delete;
      case Deleted(_) => r := CloseSocket;
      case SocketClosed => r := Leave;
    }
  }

  /** Once the loop has returned, all reapers can leave. */
  lemma {:induction false} ReapersCanLeave(timeout: Time, steps: seq<Step>, s: State, k: Socket)
    returns (more: seq<Step>, e: State)
    requires Run(timeout, steps) == Some(s) && s.loop.Returned?
    ensures Run(timeout, steps + more) == Some(e) && e.loop.Returned? && Present(e.reapers) == {}
    decreases |Present(s.reapers)|, if k in Present(s.reapers) then ReaperRank(s.reapers[k].phase) else 6
  {
    if Present(s.reapers) == {} {
      assert steps + [] == steps;
      return [], s;
    }
    var j := k;
    if k !in Present(s.reapers) {
      j := Member(Present(s.reapers));
    }
    hide Next;
    RunningIsPositive(timeout, steps, s);
    var r := ReaperWayOut(timeout, s, j);
    RunMore(timeout, steps, Reap(j, r));
    var b := Next(timeout, s, Reap(j, r)).value;
    CardUpdate(Present(s.reapers), Present(b.reapers), j);
    more, e := ReapersCanLeave(timeout, steps + [Reap(j, r)], b, j);
    assert steps + ([Reap(j, r)] + more) == steps + [Reap(j, r)] + more;
    more := [Reap(j, r)] + more;
  }

  /**
   * From every state of every interleaving there is a way to the end: the loop
   * returns, all reapers leave, and the wait group is down to zero.
   */
  lemma CleanUpCanEnd(timeout: Time, steps: seq<Step>) returns (more: seq<Step>, e: State)
    requires Run(timeout, steps).Some?
    ensures Run(timeout, steps + more) == Some(e) && e.running == 0
  {
    hide Run, Next;
    var b;
    more, b := LoopCanReturn(timeout, steps, Run(timeout, steps).value);
    var rest;
    rest, e := ReapersCanLeave(timeout, steps + more, b, 0);
    assert steps + more + rest == steps + (more + rest);
    more := more + rest;
    InvHolds(timeout, steps + more, e);
  }
}
