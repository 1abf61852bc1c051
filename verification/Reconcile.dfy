/**
 * Applying a new configuration to a running server: which ports are stopped
 * and started, and which keys each of them gets. Maps are iterated in any
 * order, and listening or closing may fail at any port.
 */
module Reconcile {
  import opened ByteSeqs
  import opened Collections
  import opened Crypto
  import opened ServerSalt
  import opened CipherList
  import opened ServeStop

  datatype KeyConfig = KeyConfig(id: Bytes, port: int, cipherName: Bytes, secret: Bytes)

  /** The keyed hash behind the salt marks: secret, salt prefix. */
  type Tagger = f: (Bytes, Bytes) -> Bytes | LongTags(f) witness (s: Bytes, p: Bytes) => [0, 0, 0, 0]

  ghost predicate LongTags(f: (Bytes, Bytes) -> Bytes) {
    forall s: Bytes, p: Bytes :: |f(s, p)| >= MARK_LEN
  }

  function TagOf(tag: Tagger, secret: Bytes): Bytes -> Bytes {
    p => tag(secret, p)
  }

  /** `NewCipher`: `None` for a name that is not supported. */
  type CipherMaker = (Bytes, Bytes) -> Option<Cipher>

  function PortsOf(users: seq<KeyConfig>): set<int> {
    set i | 0 <= i < |users| :: users[i].port
  }

  /** The keys of a port in the order of the configuration. */
  function KeysOf(users: seq<KeyConfig>, port: int): seq<KeyConfig> {
    if users == [] then []
    else
      var n := |users| - 1;
      KeysOf(users[..n], port) + if users[n].port == port then [users[n]] else []
  }

  /** Those of the port, at increasing indices. */
  lemma {:induction false} KeysOfSelects(users: seq<KeyConfig>, port: int)
    ensures var flags := seq(|users|, i requires 0 <= i < |users| => users[i].port == port);
      KeysOf(users, port) == Where(users, flags, true)
  {
    if users != [] {
      var n := |users| - 1;
      var flags := seq(|users|, i requires 0 <= i < |users| => users[i].port == port);
      KeysOfSelects(users[..n], port);
      assert flags[..n] == seq(n, i requires 0 <= i < n => users[..n][i].port == port);
    }
  }

  ghost predicate AllKnown(make: CipherMaker, users: seq<KeyConfig>) {
    forall i :: 0 <= i < |users| ==> make(users[i].cipherName, users[i].secret).Some?
  }

  /** Is this an entry for this key? */
  ghost predicate IsEntryFor(make: CipherMaker, tag: Tagger, e: CipherEntry, k: KeyConfig) {
    && e.id == k.id
    && make(k.cipherName, k.secret) == Some(e.cipher)
    && e.saltGenerator == GeneratorFor(e.cipher, TagOf(tag, k.secret))
    && (e.saltGenerator.MarkedSalts? ==> forall p :: e.saltGenerator.tag(p) == tag(k.secret, p))
  }

  ghost predicate AreEntriesFor(make: CipherMaker, tag: Tagger, es: seq<CipherEntry>, ks: seq<KeyConfig>) {
    |es| == |ks| && forall j :: 0 <= j < |es| ==> IsEntryFor(make, tag, es[j], ks[j])
  }

  /** Exactly the ports with keys, each with its keys in order. */
  ghost predicate AreListsFor(make: CipherMaker, tag: Tagger, lists: map<int, seq<CipherEntry>>, users: seq<KeyConfig>)
  {
    && lists.Keys == PortsOf(users)
    && forall p :: p in lists ==> AreEntriesFor(make, tag, lists[p], KeysOf(users, p))
  }

  lemma {:induction false} NoKeys(users: seq<KeyConfig>, port: int)
    requires port !in PortsOf(users)
    ensures KeysOf(users, port) == []
  {
    if users != [] {
      var front := users[..|users| - 1];
      assert users[|users| - 1].port in PortsOf(users);
      assert PortsOf(front) <= PortsOf(users) by {
        assert forall i :: 0 <= i < |front| ==> front[i].port == users[i].port;
      }
      NoKeys(front, port);
    }
  }

  lemma EmptyLists(make: CipherMaker, tag: Tagger)
    ensures forall users: seq<KeyConfig> :: |users| == 0 ==> AreListsFor(make, tag, map[], users)
  {
  }

  lemma OneMoreKey(users: seq<KeyConfig>, k: KeyConfig)
    ensures PortsOf(users + [k]) == PortsOf(users) + {k.port}
    ensures forall p :: KeysOf(users + [k], p) == KeysOf(users, p) + if k.port == p then [k] else []
  {
    var all := users + [k];
    assert all[..|users|] == users;
    forall p | p in PortsOf(users) + {k.port} ensures p in PortsOf(all) {
      if p == k.port {
        assert all[|users|].port == p;
      } else {
        var i :| 0 <= i < |users| && users[i].port == p;
        assert all[i].port == p;
      }
    }
  }

  /** Appends the entry of one more key to the list of its port. */
  method AddKey(make: CipherMaker, tag: Tagger, lists: map<int, seq<CipherEntry>>, k: KeyConfig, cipher: Cipher,
      ghost users: seq<KeyConfig>)
    returns (more: map<int, seq<CipherEntry>>)
    requires AreListsFor(make, tag, lists, users) && make(k.cipherName, k.secret) == Some(cipher)
    ensures AreListsFor(make, tag, more, users + [k])
  {
    OneMoreKey(users, k);
    var entry := new CipherEntry(k.id, cipher, TagOf(tag, k.secret));
    var before := [];
    if k.port in lists {
      before := lists[k.port];
    } else {
      NoKeys(users, k.port);
    }
    hide PortsOf, KeysOf, TagOf, GeneratorFor;
    more := lists[k.port := before + [entry]];
    assert AreEntriesFor(make, tag, more[k.port], KeysOf(users, k.port) + [k]);
    forall p | p in more ensures AreEntriesFor(make, tag, more[p], KeysOf(users + [k], p)) {
      if p != k.port {
        assert more[p] == lists[p];
      }
    }
  }

  /** `ssPort`: the states of its two services, and its keys. */
  class Port {
    var tcpService: Shared
    var udpService: Shared
    const cipherList: KeyList

    constructor ()
      ensures fresh(cipherList) && cipherList.list == [] && Running()
    {
      tcpService, udpService := Shared(None, false, 0), Shared(None, false, 0);
      cipherList := new KeyList();
    }

    ghost function Views(): (Shared, Shared)
      reads this`tcpService, this`udpService
    {
      (tcpService, udpService)
    }

    ghost predicate Running()
      reads this`tcpService, this`udpService
    {
      !tcpService.stopped && !udpService.stopped
    }

    ghost predicate Stopped()
      reads this`tcpService, this`udpService
    {
      tcpService.stopped && udpService.stopped
    }

    method Stop()
      modifies this`tcpService, this`udpService
      ensures tcpService == ServeStop.Stopped(old(tcpService)).0
      ensures udpService == ServeStop.Stopped(old(udpService)).0
    {
      tcpService := ServeStop.Stopped(tcpService).0;
      udpService := ServeStop.Stopped(udpService).0;
    }
  }

  /** +1 for a port to be started, -1 for one to be stopped, 0 for one to be kept. */
  function Changes(configured: set<int>, present: set<int>): map<int, int> {
    map p | p in configured + present :: (if p in configured then 1 else 0) - (if p in present then 1 else 0)
  }

  lemma NoChanges(configured: set<int>)
    ensures Changes(configured, {}) == map p | p in configured :: 1
  {
  }

  lemma OneMoreChange(configured: set<int>, present: set<int>, p: int)
    requires p !in present
    ensures var c := Changes(configured, present);
      Changes(configured, present + {p}) == c[p := (if p in c then c[p] else 0) - 1]
  {
  }

  /** What the system answers when a port is to listen for TCP and then for UDP. */
  datatype Answer = BothListen | TcpFails | UdpFails

  datatype Start = Start(port: int, answer: Answer)

  /** The ports at which listening for UDP failed after listening for TCP had succeeded. */
  function HalfStarted(starts: seq<Start>): set<int> {
    set i | 0 <= i < |starts| && starts[i].answer == UdpFails :: starts[i].port
  }

  /** The i-th answer is the system's, but an address in use is refused. */
  ghost predicate Answered(starts: seq<Start>, listens: nat -> Answer) {
    forall i :: 0 <= i < |starts| ==>
      starts[i].answer == if starts[i].port in HalfStarted(starts[..i]) then TcpFails else listens(i)
  }

  lemma OneMoreStart(starts: seq<Start>, s: Start)
    ensures HalfStarted(starts + [s]) == HalfStarted(starts) + if s.answer == UdpFails then {s.port} else {}
  {
    var all := starts + [s];
    forall p | p in HalfStarted(starts) ensures p in HalfStarted(all) {
      var i :| 0 <= i < |starts| && starts[i].answer == UdpFails && starts[i].port == p;
      assert all[i] == starts[i];
    }
    assert all[|starts|] == s;
  }

  lemma OneMoreAnswer(starts: seq<Start>, s: Start, listens: nat -> Answer)
    requires Answered(starts, listens)
    requires s.answer == if s.port in HalfStarted(starts) then TcpFails else listens(|starts|)
    ensures Answered(starts + [s], listens)
  {
    var all := starts + [s];
    assert all[..|starts|] == starts;
    assert forall i :: 0 <= i < |starts| ==> all[..i] == starts[..i] && all[i] == starts[i];
  }

  /** Starts that succeed, or fail for TCP, leave no listener behind. */
  lemma {:induction false} NoMoreHalfStarted(before: seq<Start>, after: seq<Start>)
    requires before <= after && forall i :: |before| <= i < |after| ==> after[i].answer != UdpFails
    ensures HalfStarted(after) == HalfStarted(before)
    decreases |after|
  {
    if |after| > |before| {
      var front := after[..|after| - 1];
      NoMoreHalfStarted(before, front);
      OneMoreStart(front, after[|after| - 1]);
      assert after == front + [after[|after| - 1]];
    } else {
      assert after == before;
    }
  }

  /** If the system never fails and nothing has been left behind, the last of several starts succeeds, too. */
  lemma LastStartSucceeds(before: seq<Start>, after: seq<Start>, listens: nat -> Answer)
    requires Answered(after, listens) && before <= after
    requires forall i :: |before| <= i < |after| - 1 ==> after[i].answer == BothListen
    ensures (forall i :: listens(i) == BothListen) && HalfStarted(before) == {} && |after| > |before| ==>
              after[|after| - 1].answer == BothListen
  {
    hide HalfStarted;
    if |after| > |before| {
      var n := |after| - 1;
      NoMoreHalfStarted(before, after[..n]);
      assert after[n].answer == if after[n].port in HalfStarted(after[..n]) then TcpFails else listens(n);
    }
  }

  lemma OrphansListen(ports: set<int>, orphans: set<int>)
    requires ports !! orphans
    ensures ports + orphans == ports <==> orphans == {}
  {
    if orphans != {} {
      var p := Member(orphans);
      assert p in ports + orphans;
    }
  }

  datatype RunErr = UnknownCipher(k: KeyConfig) | StopFailed(port: int) | StartFailed(port: int)

  /** The error is about a port that had to be stopped, or one that had to be started. */
  ghost predicate Explained(err: RunErr, before: set<int>, configured: set<int>) {
    && (err.StopFailed? ==> err.port in before && err.port !in configured)
    && (err.StartFailed? ==> err.port in configured && err.port !in before)
  }

  class Server {
    var ports: map<int, Port>
    /** TCP listeners that are open without belonging to a port. */
    var orphans: set<int>
    const make: CipherMaker
    const tag: Tagger
    /** What the system answers to the i-th start, if the address is free, and to the i-th removal. */
    const listens: nat -> Answer
    const closes: nat -> bool
    var attempts: nat
    var removals: nat
    /** All starts ever attempted. */
    ghost var starts: seq<Start>

    constructor (make: CipherMaker, tag: Tagger, listens: nat -> Answer, closes: nat -> bool)
      ensures Valid() && ports == map[] && starts == []
      ensures this.make == make && this.tag == tag && this.listens == listens && this.closes == closes
    {
      this.ports, this.orphans, this.make, this.tag := map[], {}, make, tag;
      this.listens, this.closes, attempts, removals, starts := listens, closes, 0, 0, [];
    }

    /**
     * No two port numbers share a port or a list, and no port listens twice.
     * The listeners without a port are those of the starts that failed halfway.
     */
    ghost predicate Valid()
      reads this`ports, this`orphans, this`attempts, this`starts
    {
      && orphans == HalfStarted(starts) && ports.Keys !! orphans
      && attempts == |starts| && Answered(starts, listens)
      && forall p, q :: p in ports && q in ports && p != q ==>
           ports[p] != ports[q] && ports[p].cipherList != ports[q].cipherList
    }

    /** The port numbers at which a TCP listener is open. */
    function Listening(): set<int>
      reads this`ports, this`orphans
    {
      ports.Keys + orphans
    }

    ghost function AllPorts(): set<Port>
      reads this`ports
    {
      ports.Values
    }

    ghost function AllLists(): set<KeyList>
      reads this`ports
    {
      set p | p in ports :: ports[p].cipherList
    }

    ghost predicate NothingFails() {
      (forall i :: listens(i) == BothListen) && (forall i :: closes(i))
    }

    /** The answer to the next start. */
    function NextAnswer(portNum: int): Answer
      reads this`orphans, this`attempts
    {
      if portNum in orphans then TcpFails else listens(attempts)
    }

    method StartPort(portNum: int) returns (ok: bool)
      requires Valid() && portNum !in ports
      modifies this`ports, this`orphans, this`attempts, this`starts
      ensures Valid() && starts == old(starts) + [Start(portNum, old(NextAnswer(portNum)))]
      ensures ok <==> old(NextAnswer(portNum)) == BothListen
      ensures !ok ==> ports == old(ports)
      ensures orphans == old(orphans) + if old(NextAnswer(portNum)) == UdpFails then {portNum} else {}
      ensures ok ==>
                && portNum in ports && ports == old(ports)[portNum := ports[portNum]]
                && fresh(ports[portNum]) && fresh(ports[portNum].cipherList)
                && ports[portNum].cipherList.list == [] && ports[portNum].Running()
    {
      hide HalfStarted, Answered;
      var answer := NextAnswer(portNum);
      OneMoreStart(starts, Start(portNum, answer));
      OneMoreAnswer(starts, Start(portNum, answer), listens);
      attempts, starts := attempts + 1, starts + [Start(portNum, answer)];
      if answer == TcpFails {
        return false;
      }
      if answer == UdpFails {
        orphans := orphans + {portNum};  // the TCP listener is not closed
        return false;
      }
      var port := new Port();
      ports := ports[portNum := port];
      return true;
    }

    method RemovePort(portNum: int) returns (ok: bool)
      requires Valid() && portNum in ports
      modifies this`ports, this`removals, {ports[portNum]}`tcpService, {ports[portNum]}`udpService
      ensures Valid()
      ensures ports == old(ports) - {portNum}
      ensures old(ports[portNum]).Stopped()
      ensures removals == old(removals) + 1 && ok == closes(old(removals))
    {
      hide HalfStarted, Answered;
      ports[portNum].Stop();
      ports := ports - {portNum};
      ok := closes(removals);  // closing the listener or the packet connection may fail
      removals := removals + 1;
    }

    /** The lists of all configured ports; fails at the first unknown cipher and changes nothing. */
    method BuildLists(users: seq<KeyConfig>) returns (portCiphers: map<int, seq<CipherEntry>>, err: Option<RunErr>)
      ensures err.None? <==> AllKnown(make, users)
      ensures err.Some? ==> err.value.UnknownCipher?
      ensures err.None? ==> AreListsFor(make, tag, portCiphers, users)
    {
      hide AreEntriesFor, AreListsFor, KeysOf;
      portCiphers := map[];
      EmptyLists(make, tag);
      for i := 0 to |users|
        invariant AllKnown(make, users[..i])
        invariant AreListsFor(make, tag, portCiphers, users[..i])
      {
        var k := users[i];
        var cipher := make(k.cipherName, k.secret);
        if cipher.None? {
          assert users[i] == k;
          return portCiphers, Some(UnknownCipher(k));
        }
        portCiphers := AddKey(make, tag, portCiphers, k, cipher.value, users[..i]);
        assert users[..i + 1] == users[..i] + [k];
      }
      assert users[..|users|] == users;
      err := None;
    }

    method CountChanges(configured: set<int>) returns (portChanges: map<int, int>)
      ensures portChanges == Changes(configured, ports.Keys)
    {
      hide Changes;
      portChanges := map p | p in configured :: 1;
      NoChanges(configured);
      ghost var seen: set<int> := {};
      var todo := ports.Keys;
      while todo != {}
        invariant seen !! todo && seen + todo == ports.Keys
        invariant portChanges == Changes(configured, seen)
        decreases |todo|
      {
        ghost var some := Member(todo);
        var p :| p in todo;
        OneMoreChange(configured, seen, p);
        todo, seen := todo - {p}, seen + {p};
        portChanges := portChanges[p := (if p in portChanges then portChanges[p] else 0) - 1];
      }
    }

    /** The states of the services of every port. */
    ghost function AllViews(): map<int, (Shared, Shared)>
      reads this, AllPorts()
    {
      map p | p in ports :: ports[p].Views()
    }

    /** Ports that were open before are the same objects, untouched; new ones are running. */
    ghost predicate KeptOrNew(was: map<int, Port>, views: map<int, (Shared, Shared)>, configured: set<int>)
      reads this`ports, AllPorts()`tcpService, AllPorts()`udpService
    {
      && (forall p :: p in ports && p in was ==> ports[p] == was[p] && p in views && ports[p].Views() == views[p])
      && (forall p :: p in ports && p !in was ==> p in configured && ports[p].Running())
    }

    /** Ports opened since, and their lists, are new objects. */
    twostate predicate NewAreFresh()
      reads this
    {
      forall p :: p in ports && p !in old(ports) ==> fresh(ports[p]) && fresh(ports[p].cipherList)
    }

    /** Of the ports in `was`, those that are gone have been stopped; only ports without keys are gone. */
    ghost predicate StoppedIfGone(was: map<int, Port>, configured: set<int>)
      reads this`ports, was.Values`tcpService, was.Values`udpService
    {
      forall p :: p in was && p !in ports ==>
        p !in configured && was[p].Stopped()
    }

    /** What stopping and starting keep true of the server: nothing is lost that should stay. */
    ghost predicate OnTheWay(was: map<int, Port>, views: map<int, (Shared, Shared)>, configured: set<int>)
      reads this`ports, this`orphans, this`attempts, this`starts
      reads AllPorts()`tcpService, AllPorts()`udpService, was.Values`tcpService, was.Values`udpService
    {
      && Valid()
      && (forall p, q :: p in was && q in was && p != q ==> was[p] != was[q])
      && KeptOrNew(was, views, configured)
      && StoppedIfGone(was, configured)
    }

    lemma OnTheWayAtFirst(configured: set<int>)
      requires Valid()
      ensures OnTheWay(ports, AllViews(), configured)
    {
    }

    method RemoveOne(p: int, ghost was: map<int, Port>, ghost views: map<int, (Shared, Shared)>,
        ghost configured: set<int>)
      returns (ok: bool)
      requires OnTheWay(was, views, configured) && p in ports && p in was && p !in configured
      modifies this`ports, this`removals, {was[p]}`tcpService, {was[p]}`udpService
      ensures OnTheWay(was, views, configured)
      ensures ports == old(ports) - {p}
      ensures removals == old(removals) + 1 && ok == closes(old(removals))
    {
      assert ports[p] == was[p];
      ok := RemovePort(p);
    }

    method StartOne(p: int, ghost was: map<int, Port>, ghost views: map<int, (Shared, Shared)>,
        ghost configured: set<int>)
      returns (ok: bool)
      requires OnTheWay(was, views, configured) && p !in ports && p !in was && p in configured
      modifies this`ports, this`orphans, this`attempts, this`starts
      ensures OnTheWay(was, views, configured)
      ensures starts == old(starts) + [Start(p, old(NextAnswer(p)))] && (ok <==> old(NextAnswer(p)) == BothListen)
      ensures ports == if ok && p in ports then old(ports)[p := ports[p]] else old(ports)
      ensures ok ==> p in ports && fresh(ports[p]) && fresh(ports[p].cipherList) && ports[p].cipherList.list == []
    {
      ok := StartPort(p);
    }

    /**
     * The starts attempted since `before`, and the removals since there were
     * `removed`: all succeeded but the last one, if that is the error.
     */
    ghost predicate StartedAndStopped(err: Option<RunErr>, before: seq<Start>, removed: nat)
      reads this`starts, this`removals
    {
      && before <= starts && removed <= removals
      && (forall i :: |before| <= i < |starts| - 1 ==> starts[i].answer == BothListen)
      && (if err.Some? && err.value.StartFailed?
          then |starts| > |before| && starts[|starts| - 1].port == err.value.port
               && starts[|starts| - 1].answer != BothListen
          else |starts| > |before| ==> starts[|starts| - 1].answer == BothListen)
      && (forall i :: removed <= i < removals - 1 ==> closes(i))
      && (if err.Some? && err.value.StopFailed?
          then removals > removed && !closes(removals - 1)
          else removals > removed ==> closes(removals - 1))
    }

    /** Every port opened since has a start of its own that succeeded. */
    ghost predicate OpenedByStart(was: map<int, Port>, before: seq<Start>)
      reads this`ports, this`starts
    {
      before <= starts && forall p :: p in ports && p !in was ==> Start(p, BothListen) in starts[|before|..]
    }

    lemma NothingStarted(err: Option<RunErr>)
      requires err.Some? ==> err.value.UnknownCipher?
      ensures StartedAndStopped(err, starts, removals) && OpenedByStart(ports, starts)
    {
    }

    /** What a run of starts leaves listening. */
    lemma ListeningAfter(err: Option<RunErr>, before: seq<Start>, removed: nat)
      requires Valid() && StartedAndStopped(err, before, removed)
      ensures err.None? ==>
                && (Listening() == ports.Keys <==> HalfStarted(before) == {})
                && HalfStarted(starts) == HalfStarted(before) && ports.Keys !! HalfStarted(before)
      ensures NothingFails() && HalfStarted(before) == {} ==> err.None? || err.value.UnknownCipher?
    {
      hide HalfStarted, Answered;
      if err.None? {
        NoMoreHalfStarted(before, starts);
        OrphansListen(ports.Keys, orphans);
      } else {
        LastStartSucceeds(before, starts, listens);
      }
    }

    method ApplyOne(p: int, change: int, ghost was: map<int, Port>, ghost views: map<int, (Shared, Shared)>,
        ghost configured: set<int>, ghost before: seq<Start>, ghost removed: nat)
      returns (err: Option<RunErr>)
      requires OnTheWay(was, views, configured) && (p in ports <==> p in was)
      requires StartedAndStopped(None, before, removed) && OpenedByStart(was, before)
      requires change == (if p in configured then 1 else 0) - (if p in was then 1 else 0)
      modifies this`ports, this`orphans, this`attempts, this`starts, this`removals
      modifies was.Values`tcpService, was.Values`udpService
      ensures OnTheWay(was, views, configured)
      ensures StartedAndStopped(err, before, removed) && OpenedByStart(was, before)
      ensures forall q :: q != p ==> (q in ports <==> q in old(ports)) && (q in ports ==> ports[q] == old(ports[q]))
      ensures p in ports && p in was ==> ports[p] == old(ports[p])
      ensures err.None? ==> (p in ports <==> p in configured)
      ensures err.Some? ==> !err.value.UnknownCipher? && Explained(err.value, was.Keys, configured)
      ensures p in ports && p !in was ==>
                fresh(ports[p]) && fresh(ports[p].cipherList) && ports[p].cipherList.list == []
    {
      hide Server.OnTheWay;
      err := None;
      if change == -1 {
        var ok := RemoveOne(p, was, views, configured);
        if !ok {
          err := Some(StopFailed(p));
        }
      } else if change == 1 {
        var ok := StartOne(p, was, views, configured);
        assert starts[|before|..] == old(starts)[|before|..] + [starts[|starts| - 1]];
        if !ok {
          err := Some(StartFailed(p));
        }
      }
    }

    /** Stops and starts ports, in any order, until all is done or something fails. */
    method ApplyChanges(portChanges: map<int, int>, ghost configured: set<int>,
        ghost was: map<int, Port>, ghost views: map<int, (Shared, Shared)>)
      returns (err: Option<RunErr>)
      requires OnTheWay(was, views, configured) && ports == was
      requires portChanges == Changes(configured, was.Keys)
      modifies this`ports, this`orphans, this`attempts, this`starts, this`removals
      modifies was.Values`tcpService, was.Values`udpService
      ensures OnTheWay(was, views, configured)
      ensures StartedAndStopped(err, old(starts), old(removals)) && OpenedByStart(was, old(starts))
      ensures forall p :: p in ports && p in was ==> ports[p] == was[p]
      ensures forall p :: p in ports && p !in was ==>
                fresh(ports[p]) && fresh(ports[p].cipherList) && ports[p].cipherList.list == []
      ensures err.None? ==> forall p :: p in ports <==> p in configured
      ensures err.Some? ==> !err.value.UnknownCipher? && Explained(err.value, was.Keys, configured)
    {
      hide Server.OnTheWay, Server.StartedAndStopped, Server.OpenedByStart, Explained;
      ghost var before, removed := starts, removals;
      NothingStarted(None);
      var todo := portChanges.Keys;
      err := None;
      while todo != {} && err.None?
        invariant OnTheWay(was, views, configured)
        invariant StartedAndStopped(err, before, removed) && OpenedByStart(was, before)
        invariant forall p :: p in ports && p in was ==> ports[p] == was[p]
        invariant forall p :: p in ports && p !in was ==>
                    fresh(ports[p]) && fresh(ports[p].cipherList) && ports[p].cipherList.list == []
        invariant todo <= portChanges.Keys
        invariant forall p :: p in todo ==> (p in ports <==> p in was)
        invariant err.None? ==> forall p :: p !in todo ==> (p in ports <==> p in configured)
        invariant err.Some? ==> !err.value.UnknownCipher? && Explained(err.value, was.Keys, configured)
        decreases |todo|
      {
        ghost var some := Member(todo);
        var p :| p in todo;
        todo := todo - {p};
        err := ApplyOne(p, portChanges[p], was, views, configured, before, removed);
      }
    }

    /** Gives every configured port its keys. */
    method UpdateLists(portCiphers: map<int, seq<CipherEntry>>)
      requires Valid() && portCiphers.Keys == ports.Keys
      modifies AllLists()`list
      ensures forall p :: p in ports ==> ports[p].cipherList.list == portCiphers[p]
    {
      var todo := portCiphers.Keys;
      while todo != {}
        invariant todo <= ports.Keys
        invariant forall p :: p in ports && p !in todo ==> ports[p].cipherList.list == portCiphers[p]
        decreases |todo|
      {
        ghost var some := Member(todo);
        var p :| p in todo;
        todo := todo - {p};
        ports[p].cipherList.Update(portCiphers[p]);
      }
    }

    /** Giving out keys does not get in the way of what has been started and stopped. */
    method UpdateAtLast(portCiphers: map<int, seq<CipherEntry>>,
        ghost was: map<int, Port>, ghost views: map<int, (Shared, Shared)>)
      requires portCiphers.Keys == ports.Keys && OnTheWay(was, views, portCiphers.Keys)
      modifies AllLists()`list
      ensures OnTheWay(was, views, portCiphers.Keys)
      ensures forall p :: p in ports ==> ports[p].cipherList.list == portCiphers[p]
    {
      UpdateLists(portCiphers);
      assert forall p :: p in ports ==> ports[p].Views() == old(ports[p].Views());
      assert forall p :: p in was ==> was[p].Views() == old(was[p].Views());
    }

    /** The part of `DoRun` that follows once all ciphers are known. */
    method Reconfigure(portCiphers: map<int, seq<CipherEntry>>) returns (err: Option<RunErr>)
      requires Valid()
      modifies this`ports, this`orphans, this`attempts, this`starts, this`removals
      modifies AllPorts()`tcpService, AllPorts()`udpService, AllLists()`list
      ensures Valid() && NewAreFresh() && OnTheWay(old(ports), old(AllViews()), portCiphers.Keys)
      ensures StartedAndStopped(err, old(starts), old(removals)) && OpenedByStart(old(ports), old(starts))
      ensures err.None? ==> ports.Keys == portCiphers.Keys
      ensures err.None? ==> forall p :: p in ports ==> ports[p].cipherList.list == portCiphers[p]
      ensures err.Some? ==> !err.value.UnknownCipher? && Explained(err.value, old(ports.Keys), portCiphers.Keys)
      ensures err.Some? ==> forall l :: l in old(AllLists()) ==> l.list == old(l.list)
      ensures err.Some? ==> forall p :: p in ports && p !in old(ports) ==> ports[p].cipherList.list == []
    {
      hide Server.KeptOrNew, Server.StoppedIfGone, Port.Views, Explained, HalfStarted, Answered;
      hide Server.StartedAndStopped, Server.OpenedByStart;
      ghost var views := AllViews();
      var portChanges := CountChanges(portCiphers.Keys);
      assert AllViews() == views;
      OnTheWayAtFirst(portCiphers.Keys);
      err := ApplyChanges(portChanges, portCiphers.Keys, ports, views);
      if err.None? {
        assert forall p :: p in ports.Keys <==> p in portCiphers.Keys;
        assert forall l :: l in AllLists() ==> l in old(AllLists()) || fresh(l);
        UpdateAtLast(portCiphers, old(ports), views);
      }
    }

    /**
     * A new configuration. An unknown cipher changes nothing. On success exactly
     * the configured ports are open, those that were open before with the same
     * services still running, and every port has its keys in the order of the
     * configuration. If stopping or starting a port fails, no port that is to
     * stay is lost, all keys stay as they were, and new ports have none.
     */
    method DoRun(users: seq<KeyConfig>) returns (err: Option<RunErr>)
      requires Valid()
      modifies this`ports, this`orphans, this`attempts, this`starts, this`removals
      modifies AllPorts()`tcpService, AllPorts()`udpService, AllLists()`list
      ensures Valid() && NewAreFresh() && OnTheWay(old(ports), old(AllViews()), PortsOf(users))
      ensures err.Some? && err.value.UnknownCipher? <==> !AllKnown(make, users)
      ensures !AllKnown(make, users) ==> ports == old(ports)
      ensures err.None? ==> ports.Keys == PortsOf(users)
      // Exactly the configured ports are open unless an earlier start has failed halfway.
      ensures err.None? ==> (Listening() == PortsOf(users) <==> HalfStarted(old(starts)) == {})
      ensures err.None? ==> HalfStarted(starts) == HalfStarted(old(starts))
      // A port whose start has failed halfway cannot be started again.
      ensures err.None? ==> PortsOf(users) !! HalfStarted(old(starts))
      // With known ciphers, nothing left behind, and no failure of the system, it succeeds.
      ensures AllKnown(make, users) && HalfStarted(old(starts)) == {} && NothingFails() ==> err.None?
      ensures StartedAndStopped(err, old(starts), old(removals)) && OpenedByStart(old(ports), old(starts))
      ensures err.None? ==> forall p :: p in ports ==>
                AreEntriesFor(make, tag, ports[p].cipherList.list, KeysOf(users, p))
      ensures err.Some? ==> Explained(err.value, old(ports.Keys), PortsOf(users))
      ensures err.Some? ==> forall l :: l in old(AllLists()) ==> l.list == old(l.list)
      ensures err.Some? ==> forall p :: p in ports && p !in old(ports) ==> ports[p].cipherList.list == []
    {
      hide Server.OnTheWay, Server.StartedAndStopped, Server.OpenedByStart, Server.NothingFails, Server.Valid;
      hide AreEntriesFor, AllKnown, PortsOf, KeysOf, HalfStarted;
      ghost var views := AllViews();
      var portCiphers;
      portCiphers, err := BuildLists(users);
      assert AllViews() == views;
      if err.Some? {
        OnTheWayAtFirst(PortsOf(users));
        NothingStarted(err);
        return;
      }
      err := Reconfigure(portCiphers);
      ListeningAfter(err, old(starts), old(removals));
    }

    /** Running a configuration whose ports are open already succeeds, and starts and stops nothing. */
    method RunAgain(users: seq<KeyConfig>) returns (err: Option<RunErr>)
      requires Valid() && ports.Keys == PortsOf(users) && AllKnown(make, users)
      modifies this`ports, this`orphans, this`attempts, this`starts, this`removals
      modifies AllPorts()`tcpService, AllPorts()`udpService, AllLists()`list
      ensures err.None? && ports == old(ports)
      ensures forall p :: p in ports ==> ports[p].Views() == old(ports[p].Views())
      ensures forall p :: p in ports ==>
                AreEntriesFor(make, tag, ports[p].cipherList.list, KeysOf(users, p))
    {
      hide PortsOf, KeysOf, AllKnown, AreEntriesFor, Port.Views, Server.Valid, Server.StoppedIfGone;
      ghost var was, views := ports, AllViews();
      assert forall p :: p in was ==> views[p] == was[p].Views();
      err := DoRun(users);
      assert err.None?;
      assert KeptOrNew(was, views, PortsOf(users));
      assert forall p :: p in ports ==> p in was && ports[p] == was[p];
      SameMap(ports, was);
    }
  }

  // ------------------------------------------------------------------ whole runs

  /** One more configuration for a server all of whose objects were made since the start of the run. */
  method NextRun(server: Server, users: seq<KeyConfig>, ghost made: set<object>)
    returns (err: Option<RunErr>, ghost now: set<object>)
    requires server.Valid() && MadeOf(server, made)
    modifies made
    ensures server.Valid() && MadeOf(server, now) && made <= now && fresh(now - made)
    ensures err.None? ==> server.ports.Keys == PortsOf(users)
                          && HalfStarted(server.starts) == HalfStarted(old(server.starts))
                          && (server.Listening() == PortsOf(users) <==> HalfStarted(server.starts) == {})
    ensures err.Some? && err.value.UnknownCipher? <==> !AllKnown(server.make, users)
    ensures err.Some? ==> Explained(err.value, old(server.ports.Keys), PortsOf(users))
    ensures server.StartedAndStopped(err, old(server.starts), old(server.removals))
    ensures server.OpenedByStart(old(server.ports), old(server.starts))
  {
    hide HalfStarted, Answered, PortsOf, AreEntriesFor, KeysOf, AllKnown, Explained;
    forall x | x in server.AllPorts() ensures x in made {
      var p := KeyOf(server.ports, x);
    }
    err := server.DoRun(users);
    now := made + server.AllPorts() + server.AllLists();
    forall x | x in server.AllPorts() ensures x in made || fresh(x) {
      var p := KeyOf(server.ports, x);
    }
  }

  /** The server, its ports and their lists are among these objects. */
  ghost predicate MadeOf(server: Server, made: set<object>)
    reads server
  {
    server in made && forall p :: p in server.ports ==> server.ports[p] in made && server.ports[p].cipherList in made
  }

  /**
   * Any run of configurations on a new server, whatever the system answers:
   * besides the ports of the server, exactly those listen at which a start has
   * ever failed halfway. A successful last run leaves exactly the configured
   * ports listening if and only if there has been no such start.
   */
  method RunAll(configs: seq<seq<KeyConfig>>, make: CipherMaker, tag: Tagger,
      listens: nat -> Answer, closes: nat -> bool)
    returns (server: Server, errs: seq<Option<RunErr>>)
    ensures fresh(server) && server.Valid() && |errs| == |configs|
    ensures Answered(server.starts, listens)
    ensures server.Listening() == server.ports.Keys + HalfStarted(server.starts)
    ensures server.ports.Keys !! HalfStarted(server.starts)
    ensures configs != [] && errs[|errs| - 1].None? ==>
              (server.Listening() == PortsOf(configs[|configs| - 1]) <==> HalfStarted(server.starts) == {})
  {
    hide HalfStarted, Answered, PortsOf, Explained, AllKnown, Server.StartedAndStopped, Server.OpenedByStart;
    server := new Server(make, tag, listens, closes);
    ghost var made: set<object> := {server};
    errs := [];
    while |errs| < |configs|
      invariant |errs| <= |configs| && server.Valid() && server.listens == listens
      invariant MadeOf(server, made) && fresh(made)
      invariant errs != [] && errs[|errs| - 1].None? ==>
                  (server.Listening() == PortsOf(configs[|errs| - 1]) <==> HalfStarted(server.starts) == {})
      decreases |configs| - |errs|
    {
      var err;
      err, made := NextRun(server, configs[|errs|], made);
      errs := errs + [err];
    }
  }

  /** A first start that fails for UDP, and is the last of its run, is the only one. */
  lemma FirstHalfStarted(starts: seq<Start>, listens: nat -> Answer)
    requires Answered(starts, listens) && listens(0) == UdpFails
    requires forall i :: 0 <= i < |starts| - 1 ==> starts[i].answer == BothListen
    ensures |starts| <= 1
    ensures starts != [] ==> starts[0].answer == UdpFails && HalfStarted(starts) == {starts[0].port}
  {
    if starts != [] {
      assert HalfStarted(starts[..0]) == {};
      assert starts[0].port in HalfStarted(starts);
    }
  }

  lemma OneKeyConfig(make: CipherMaker, k: KeyConfig)
    requires make(k.cipherName, k.secret).Some?
    ensures PortsOf([k]) == {k.port} && AllKnown(make, [k]) && PortsOf([]) == {} && AllKnown(make, [])
  {
    assert [k][0].port in PortsOf([k]);
  }

  lemma NothingOpened(ports: map<int, Port>, starts: seq<Start>)
    requires forall p :: p in ports ==> Start(p, BothListen) in starts
    requires forall i :: 0 <= i < |starts| ==> starts[i].answer != BothListen
    ensures ports == map[]
  {
    assert forall p :: p !in ports;
  }

  /** The first start fails halfway. */
  method FirstRunFails(server: Server, k: KeyConfig) returns (err: Option<RunErr>, ghost now: set<object>)
    requires server.Valid() && server.ports == map[] && server.starts == []
    requires server.make(k.cipherName, k.secret).Some? && server.listens(0) == UdpFails
    modifies server
    ensures err == Some(StartFailed(k.port)) && server.ports == map[]
    ensures server.Valid() && MadeOf(server, now) && fresh(now - {server}) && HalfStarted(server.starts) == {k.port}
  {
    hide HalfStarted, Answered, PortsOf, AllKnown;
    OneKeyConfig(server.make, k);
    err, now := NextRun(server, [k], {server});
    FirstHalfStarted(server.starts, server.listens);
    assert server.starts[0..] == server.starts;
    NothingOpened(server.ports, server.starts);
    assert k.port in PortsOf([k]) && k.port !in server.ports;
  }

  /**
   * A run that shows it: at the first start UDP fails after TCP. The key is
   * removed from the configuration, which succeeds; its port still listens, and
   * cannot be started again.
   */
  method HalfStartedStaysOpen(k: KeyConfig, make: CipherMaker, tag: Tagger)
    returns (errs: seq<Option<RunErr>>, ghost listening: set<int>)
    requires make(k.cipherName, k.secret).Some?
    ensures errs == [Some(StartFailed(k.port)), None, Some(StartFailed(k.port))]
    // After the second run.
    ensures listening == {k.port} != PortsOf([])
  {
    hide HalfStarted, Answered, PortsOf, AllKnown, Server.StartedAndStopped, Server.OpenedByStart;
    OneKeyConfig(make, k);
    var server := new Server(make, tag, i => if i == 0 then UdpFails else BothListen, _ => true);
    var first, made := FirstRunFails(server, k);
    var second;
    second, made := NextRun(server, [], made);
    listening := server.Listening();
    var third;
    third, made := NextRun(server, [k], made);
    errs := [first, second, third];
  }
}
