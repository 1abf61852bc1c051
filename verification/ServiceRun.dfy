/** A whole run of the TCP service: connections on several ports, one replay cache and one buffer pool. */
module ServiceRun {
  import opened ByteSeqs
  import opened CipherList
  import opened Connection
  import opened Io
  import opened StreamFormat

  import Handshake
  import KeySearch
  import Replay
  import SlicePool
  import StreamReader

  /**
   * One connection: what the client sends and how it arrives, what other
   * threads do to the key list and add to the cache before its turn comes, and
   * what becomes of the target it names.
   */
  datatype Incoming = Incoming(
    port: nat,
    pieces: seq<Bytes>,
    end: SourceErr,
    eager: bool,
    clientIP: Option<Ip>,
    meanwhile: seq<Event<CipherEntry>>,
    others: seq<Replay.Hash>,
    plan: nat -> Option<nat>,
    canDial: Bytes -> bool)

  /** What happens to the key list of a port while these connections are handled. */
  ghost function EventsAt(conns: seq<Incoming>, port: nat): seq<Event<CipherEntry>> {
    if |conns| == 0 then []
    else
      var n := |conns| - 1;
      EventsAt(conns[..n], port) + if conns[n].port == port then conns[n].meanwhile else []
  }

  /** The hash of a connection that reaches the cache. */
  ghost function EnteringOne(t: Handshake.Attempt): seq<Replay.Hash> {
    var f := Handshake.Outcome(t);
    if Handshake.Enters(f) then [Replay.HashOf(f.value.id, f.value.salt)] else []
  }

  /** Everything that is added to the cache while these connections are handled, in order. */
  ghost function Added(conns: seq<Incoming>, tries: seq<Handshake.Attempt>): seq<Replay.Hash>
    requires |tries| == |conns|
  {
    if |conns| == 0 then []
    else
      var n := |conns| - 1;
      Added(conns[..n], tries[..n]) + conns[n].others + EnteringOne(tries[n])
  }

  /** The log of the cache when, after these connections, the turn of c comes. */
  ghost function LogAt(log: seq<Replay.Hash>, cap: nat, past: seq<Incoming>, pastTries: seq<Handshake.Attempt>,
      c: Incoming): seq<Replay.Hash>
    requires |pastTries| == |past|
  {
    Replay.InsertedAll(log, cap, Added(past, pastTries) + c.others)
  }

  /** What is configured at a port after these connections. */
  ghost function KeysAt(before: seq<seq<CipherEntry>>, past: seq<Incoming>, port: nat): seq<CipherEntry>
    requires port < |before|
  {
    Configured(before[port], EventsAt(past, port))
  }

  /** After these connections, c was decided as the keys of its port and the cache at its turn demand. */
  ghost predicate Decided(log: seq<Replay.Hash>, cap: nat, before: seq<seq<CipherEntry>>, past: seq<Incoming>,
      pastTries: seq<Handshake.Attempt>, c: Incoming, t: Handshake.Attempt, r: Outcome)
    requires |pastTries| == |past|
  {
    var status := Handshake.Classify(LogAt(log, cap, past, pastTries, c), cap, Handshake.Outcome(t));
    && t.stream == Flat(c.pieces)
    && c.port < |before| && multiset(t.order) == multiset(KeysAt(before, past, c.port))
    && if status.Accepted? then !r.Refused? else r == Refused(status)
  }

  /** All connections of a run were decided so. */
  ghost predicate AllDecided(log: seq<Replay.Hash>, cap: nat, before: seq<seq<CipherEntry>>, conns: seq<Incoming>,
      tries: seq<Handshake.Attempt>, rs: seq<Outcome>)
  {
    && |tries| == |conns| == |rs|
    && forall k :: 0 <= k < |conns| ==>
         Decided(log, cap, before, conns[..k], tries[..k], conns[k], tries[k], rs[k])
  }

  lemma AddedSnoc(conns: seq<Incoming>, tries: seq<Handshake.Attempt>, n: nat)
    requires |tries| == |conns| == n + 1
    ensures Added(conns, tries) == Added(conns[..n], tries[..n]) + (conns[n].others + EnteringOne(tries[n]))
  {
  }

  lemma {:induction false} AddedSplit(conns: seq<Incoming>, tries: seq<Handshake.Attempt>, i: nat)
    requires |tries| == |conns| && i <= |conns|
    ensures Added(conns, tries) == Added(conns[..i], tries[..i]) + Added(conns[i..], tries[i..])
  {
    hide Added, EnteringOne;
    if i == |conns| {
      NothingAdded(conns[i..], tries[i..]);
      assert conns[..i] == conns && tries[..i] == tries;
    } else {
      var n := |conns| - 1;
      AddedSplit(conns[..n], tries[..n], i);
      AddedSnoc(conns, tries, n);
      AddedSnoc(conns[i..], tries[i..], n - i);
      SliceSlices(conns, i);
      SliceSlices(tries, i);
    }
  }

  lemma NothingAdded(conns: seq<Incoming>, tries: seq<Handshake.Attempt>)
    requires |tries| == |conns| == 0
    ensures Added(conns, tries) == []
  {
  }

  lemma SliceSlices<T>(s: seq<T>, i: nat)
    requires i < |s|
    ensures s[..|s| - 1][..i] == s[..i] && s[..|s| - 1][i..] == s[i..][..|s| - 1 - i]
  {
  }

  /** What is added between the turns of two connections, the first of which reaches the cache. */
  lemma LogBetween(log: seq<Replay.Hash>, cap: nat, conns: seq<Incoming>, tries: seq<Handshake.Attempt>, i: nat, j: nat)
    requires |tries| == |conns| && i < j < |conns| && Handshake.Enters(Handshake.Outcome(tries[i]))
    ensures var f := Handshake.Outcome(tries[i]).value;
      LogAt(log, cap, conns[..j], tries[..j], conns[j])
      == Replay.InsertedAll(
           Replay.Inserted(LogAt(log, cap, conns[..i], tries[..i], conns[i]), cap, Replay.HashOf(f.id, f.salt)), cap,
           Added(conns[i + 1..j], tries[i + 1..j]) + conns[j].others)
  {
    hide Handshake.Outcome, Replay.Inserted, Replay.HashOf, Added;
    var f := Handshake.Outcome(tries[i]).value;
    var h := Replay.HashOf(f.id, f.salt);
    var before := Added(conns[..i], tries[..i]) + conns[i].others;
    var after := Added(conns[i + 1..j], tries[i + 1..j]) + conns[j].others;
    AddedSplit(conns[..j], tries[..j], i + 1);
    assert conns[..j][..i + 1] == conns[..i + 1] && tries[..j][..i + 1] == tries[..i + 1];
    assert conns[..j][i + 1..] == conns[i + 1..j] && tries[..j][i + 1..] == tries[i + 1..j];
    AddedSnoc(conns[..i + 1], tries[..i + 1], i);
    assert conns[..i + 1][..i] == conns[..i] && tries[..i + 1][..i] == tries[..i];
    assert EnteringOne(tries[i]) == [h];
    assert Added(conns[..j], tries[..j]) + conns[j].others == before + ([h] + after);
    Replay.InsertedAllAppend(log, cap, before, [h] + after);
    assert ([h] + after)[1..] == after;
  }

  /** Does b begin with the bytes with which a begins, and do the keys agree about them? */
  ghost predicate Repeats(a: Bytes, b: Bytes, keys: seq<CipherEntry>) {
    var n := KeySearch.KEY_FINDING_BYTES;
    |a| >= n ==> |b| >= n && b[..n] == a[..n] && Handshake.Unambiguous(keys, a[..n])
  }

  /**
   * In every run: once a connection has been accepted, one that begins with the
   * same bytes and meets the same keys is refused as a replay, on whatever port,
   * as long as no more than `cap` other handshakes have reached the cache.
   */
  lemma AcceptedOnceInRun(log: seq<Replay.Hash>, cap: nat, before: seq<seq<CipherEntry>>, conns: seq<Incoming>,
      tries: seq<Handshake.Attempt>, rs: seq<Outcome>, i: nat, j: nat)
    requires cap > 0 && AllDecided(log, cap, before, conns, tries, rs) && i < j < |conns| && !rs[i].Refused?
    requires |Added(conns[i + 1..j], tries[i + 1..j]) + conns[j].others| <= cap
    requires conns[i].port < |before| && conns[j].port < |before|
    requires multiset(KeysAt(before, conns[..i], conns[i].port)) == multiset(KeysAt(before, conns[..j], conns[j].port))
    requires Repeats(Flat(conns[i].pieces), Flat(conns[j].pieces), KeysAt(before, conns[..i], conns[i].port))
    ensures rs[j] == Refused(Handshake.ErrReplayClient)
  {
    hide Handshake.FoundIn, Handshake.AuthOf, KeySearch.Authenticates, LogAt, KeysAt, Flat;
    hide Replay.Answer, Replay.Inserted, Replay.HashOf, Added;
    assert Decided(log, cap, before, conns[..i], tries[..i], conns[i], tries[i], rs[i]);
    assert Decided(log, cap, before, conns[..j], tries[..j], conns[j], tries[j], rs[j]);
    SameMembers(tries[i].order, KeysAt(before, conns[..i], conns[i].port));
    Handshake.SearchIgnoresOrder(tries[i].order, tries[j].order, tries[j].stream);
    LogBetween(log, cap, conns, tries, i, j);
    var f := Handshake.Outcome(tries[i]).value;
    Replay.RememberedForCapacity(LogAt(log, cap, conns[..i], tries[..i], conns[i]), cap, Replay.HashOf(f.id, f.salt),
                                 Added(conns[i + 1..j], tries[i + 1..j]) + conns[j].others);
  }

  lemma SameMembers<T>(a: seq<T>, b: seq<T>)
    requires multiset(a) == multiset(b)
    ensures forall x :: x in a <==> x in b
  {
    assert forall x :: x in a <==> x in multiset(a);
  }

  /** Do a list and what others do to it concern these entries only? */
  ghost predicate Within(list: seq<CipherEntry>, history: seq<Event<CipherEntry>>, entries: set<CipherEntry>) {
    && (forall e :: e in list ==> e in entries) && Marked(history) <= entries
    && (forall i, e :: 0 <= i < |history| && history[i].Replace? && e in history[i].contents ==> e in entries)
  }

  lemma WithinFrame(list: seq<CipherEntry>, history: seq<Event<CipherEntry>>, entries: set<CipherEntry>)
    requires Within(list, history, entries)
    ensures Marked(history) <= entries && forall e :: e in list ==> e in entries
  {
  }

  lemma {:induction false} ConfiguredWithin(list: seq<CipherEntry>, history: seq<Event<CipherEntry>>,
      entries: set<CipherEntry>, after: seq<CipherEntry>)
    requires Within(list, history, entries) && multiset(after) == multiset(Configured(list, history))
    ensures forall e :: e in after ==> e in entries
  {
    if history == [] || history[|history| - 1].Replace? {
      assert forall e :: e in after ==> e in multiset(after);
    } else {
      var front := history[..|history| - 1];
      assert Marked(front) <= Marked(history);
      ConfiguredWithin(list, front, entries, after);
    }
  }

  /** What has become of the target: nothing has reached it, or what belongs there. */
  ghost predicate Reached(c: Incoming, t: Handshake.Attempt, r: Outcome, entry: CipherEntry?, target: Sink)
    reads target
  {
    && target.Valid() && target.plan == c.plan
    && if r.Refused? then target.received == [] && target.failures == 0
       else
         && entry != null && entry in t.order && |t.stream| >= KeySearch.KEY_FINDING_BYTES
         && KeySearch.Authenticates(entry.cipher, t.stream[..KeySearch.KEY_FINDING_BYTES])
         && Handled(r, Plaintext(entry.cipher, Fresh(t.stream), c.end), FinalErr(entry.cipher, Fresh(t.stream), c.end),
                    c.canDial, [], target.received, target.failures != 0)
  }

  /** Handles one of the connections. */
  method HandleOne(c: Incoming, keys: KeyList, ghost entries: set<CipherEntry>, cache: Replay.ReplayCache,
      pool: SlicePool.Pool)
    returns (r: Outcome, target: Sink, ghost t: Handshake.Attempt, ghost entry: CipherEntry?)
    requires cache.Valid() && pool.Valid() && pool.len == StreamReader.READ_BUF_SIZE
    requires Within(keys.list, c.meanwhile, entries)
    modifies keys, entries, cache, pool`slices, pool`free, pool`made, pool.free
    ensures cache.Valid() && pool.Grown() && fresh(target) && Reached(c, t, r, entry, target)
    ensures multiset(t.order) == multiset(old(keys.list)) && t.stream == Flat(c.pieces)
    ensures multiset(keys.list) == multiset(Configured(old(keys.list), c.meanwhile))
    ensures forall e :: e in keys.list ==> e in entries
    ensures var log := Replay.InsertedAll(old(cache.log), cache.capacity, c.others);
      var status := Handshake.Classify(log, cache.capacity, Handshake.Outcome(t));
      && cache.log == Replay.InsertedAll(old(cache.log), cache.capacity, c.others + EnteringOne(t))
      && (if status.Accepted? then !r.Refused? else r == Refused(status))
  {
    hide Handshake.Found, Handshake.Classify, KeySearch.Authenticates, Handled, Flat, Configured;
    hide Plaintext, FinalErr, SlicePool.Pool.Valid, Replay.ReplayCache.Valid, Replay.InsertedAll, EnteringOne;
    hide Handshake.LogAfter, Handshake.DecidedBy, Within, Marked, ValidState;
    WithinFrame(keys.list, c.meanwhile, entries);
    var src := new Source(c.pieces, c.end, c.eager);
    target := new Sink(c.plan);
    ghost var order;
    r, entry, order := HandleConnection(src, c.clientIP, keys, c.meanwhile, cache, c.others, pool, target, c.canDial);
    t := Handshake.Attempt(order, Flat(c.pieces));
    ConfiguredWithin(old(keys.list), c.meanwhile, entries, keys.list);
    LogStep(old(cache.log), cache.capacity, c.others, t);
  }

  lemma LogStep(log: seq<Replay.Hash>, cap: nat, others: seq<Replay.Hash>, t: Handshake.Attempt)
    ensures Handshake.LogAfter(Replay.InsertedAll(log, cap, others), cap, Handshake.Outcome(t))
         == Replay.InsertedAll(log, cap, others + EnteringOne(t))
  {
    hide Handshake.Found, Replay.Inserted, Replay.HashOf;
    Replay.InsertedAllAppend(log, cap, others, EnteringOne(t));
  }

  ghost function Contents(lists: seq<KeyList>): seq<seq<CipherEntry>>
    reads lists
  {
    seq(|lists|, p requires 0 <= p < |lists| reads lists => lists[p].list)
  }

  /** All that concerns the key lists and these connections is among the entries. */
  ghost predicate Known(conns: seq<Incoming>, contents: seq<seq<CipherEntry>>, entries: set<CipherEntry>) {
    && (forall p, e :: 0 <= p < |contents| && e in contents[p] ==> e in entries)
    && (forall k :: 0 <= k < |conns| ==> conns[k].port < |contents| && Within([], conns[k].meanwhile, entries))
  }

  lemma KnownAt(conns: seq<Incoming>, contents: seq<seq<CipherEntry>>, entries: set<CipherEntry>, k: nat)
    requires Known(conns, contents, entries) && k < |conns|
    ensures conns[k].port < |contents| && Within(contents[conns[k].port], conns[k].meanwhile, entries)
  {
  }

  lemma KnownUpdate(conns: seq<Incoming>, contents: seq<seq<CipherEntry>>, entries: set<CipherEntry>, p: nat,
      after: seq<CipherEntry>)
    requires Known(conns, contents, entries) && p < |contents| && forall e :: e in after ==> e in entries
    ensures Known(conns, contents[p := after], entries)
  {
    hide Within;
  }

  /** The list of each port is a permutation of what was configured there last. */
  ghost predicate Configurations(before: seq<seq<CipherEntry>>, contents: seq<seq<CipherEntry>>, past: seq<Incoming>) {
    && |before| == |contents|
    && forall p :: 0 <= p < |contents| ==> multiset(contents[p]) == multiset(KeysAt(before, past, p))
  }

  lemma NoConnections(log: seq<Replay.Hash>, cap: nat, contents: seq<seq<CipherEntry>>)
    ensures Configurations(contents, contents, []) && AllDecided(log, cap, contents, [], [], [])
    ensures Replay.InsertedAll(log, cap, Added([], [])) == log
  {
  }

  lemma DecidedSnoc(log: seq<Replay.Hash>, cap: nat, before: seq<seq<CipherEntry>>, conns: seq<Incoming>,
      tries: seq<Handshake.Attempt>, rs: seq<Outcome>, c: Incoming, t: Handshake.Attempt, r: Outcome)
    requires AllDecided(log, cap, before, conns, tries, rs) && Decided(log, cap, before, conns, tries, c, t, r)
    ensures AllDecided(log, cap, before, conns + [c], tries + [t], rs + [r])
  {
    hide Decided;
    forall k | 0 <= k <= |conns|
      ensures (conns + [c])[..k] == conns[..k] && (tries + [t])[..k] == tries[..k]
    {
    }
    assert conns[..|conns|] == conns && tries[..|conns|] == tries;
  }

  lemma KeysSnoc(before: seq<seq<CipherEntry>>, contents: seq<seq<CipherEntry>>, after: seq<CipherEntry>,
      past: seq<Incoming>, c: Incoming)
    requires Configurations(before, contents, past) && c.port < |contents|
    requires multiset(after) == multiset(Configured(contents[c.port], c.meanwhile))
    ensures c.port < |before| && multiset(contents[c.port]) == multiset(KeysAt(before, past, c.port))
    ensures Configurations(before, contents[c.port := after], past + [c])
  {
    hide Configured;
    assert (past + [c])[..|past|] == past;
    forall p | 0 <= p < |before|
      ensures multiset(contents[c.port := after][p]) == multiset(KeysAt(before, past + [c], p))
    {
      ConfiguredAppend(before[p], EventsAt(past, p), if p == c.port then c.meanwhile else []);
      SameConfigured(contents[p], KeysAt(before, past, p), c.meanwhile);
      assert p != c.port ==> EventsAt(past, p) + [] == EventsAt(past, p);
    }
  }

  lemma AddedOneMore(log: seq<Replay.Hash>, cap: nat, past: seq<Incoming>, tries: seq<Handshake.Attempt>, c: Incoming,
      t: Handshake.Attempt)
    requires |past| == |tries|
    ensures var now := Replay.InsertedAll(log, cap, Added(past, tries));
      && Replay.InsertedAll(log, cap, Added(past + [c], tries + [t]))
         == Replay.InsertedAll(now, cap, c.others + EnteringOne(t))
      && LogAt(log, cap, past, tries, c) == Replay.InsertedAll(now, cap, c.others)
  {
    hide Added, EnteringOne, Replay.InsertedAll;
    assert (past + [c])[..|past|] == past && (tries + [t])[..|past|] == tries;
    AddedSnoc(past + [c], tries + [t], |past|);
    Replay.InsertedAllAppend(log, cap, Added(past, tries), c.others + EnteringOne(t));
    Replay.InsertedAllAppend(log, cap, Added(past, tries), c.others);
  }

  /** Handles the i-th connection, after those before it. */
  method HandleNext(conns: seq<Incoming>, i: nat, lists: seq<KeyList>, ghost entries: set<CipherEntry>,
      cache: Replay.ReplayCache, pool: SlicePool.Pool, ghost log: seq<Replay.Hash>,
      ghost before: seq<seq<CipherEntry>>, ghost tries: seq<Handshake.Attempt>, ghost rs: seq<Outcome>)
    returns (r: Outcome, target: Sink, ghost t: Handshake.Attempt, ghost entry: CipherEntry?)
    requires cache.Valid() && pool.Valid() && pool.len == StreamReader.READ_BUF_SIZE && i < |conns|
    requires Known(conns, Contents(lists), entries) && forall p, q :: 0 <= p < q < |lists| ==> lists[p] != lists[q]
    requires Configurations(before, Contents(lists), conns[..i])
    requires |tries| == i && cache.log == Replay.InsertedAll(log, cache.capacity, Added(conns[..i], tries))
    requires AllDecided(log, cache.capacity, before, conns[..i], tries, rs)
    modifies lists, entries, cache, pool`slices, pool`free, pool`made, pool.free
    ensures cache.Valid() && pool.Grown() && fresh(target) && Reached(conns[i], t, r, entry, target)
    ensures Known(conns, Contents(lists), entries) && Configurations(before, Contents(lists), conns[..i + 1])
    ensures cache.log == Replay.InsertedAll(log, cache.capacity, Added(conns[..i + 1], tries + [t]))
    ensures AllDecided(log, cache.capacity, before, conns[..i + 1], tries + [t], rs + [r])
  {
    hide SlicePool.Pool.Valid, SlicePool.Pool.Grown, Replay.ReplayCache.Valid, AllDecided, Reached, Configured, Added;
    hide Replay.InsertedAll, Within, Known, Configurations, KeysAt, LogAt, Handshake.Classify, Handshake.Outcome;
    ghost var c, past, contents := conns[i], conns[..i], Contents(lists);
    KnownAt(conns, contents, entries, i);
    r, target, t, entry := HandleOne(conns[i], lists[conns[i].port], entries, cache, pool);
    ghost var after := lists[c.port].list;
    assert Contents(lists) == contents[c.port := after];
    KnownUpdate(conns, contents, entries, c.port, after);
    AddedOneMore(log, cache.capacity, past, tries, c, t);
    KeysSnoc(before, contents, after, past, c);
    DecidedSnoc(log, cache.capacity, before, past, tries, rs, c, t, r);
    assert conns[..i + 1] == past + [c];
  }

  /** Handles one connection after another. */
  method HandleAll(conns: seq<Incoming>, lists: seq<KeyList>, ghost entries: set<CipherEntry>,
      cache: Replay.ReplayCache, pool: SlicePool.Pool)
    returns (rs: seq<Outcome>, targets: seq<Sink>, ghost tries: seq<Handshake.Attempt>,
             ghost found: seq<CipherEntry?>)
    requires cache.Valid() && pool.Valid() && pool.len == StreamReader.READ_BUF_SIZE
    requires Known(conns, Contents(lists), entries) && forall p, q :: 0 <= p < q < |lists| ==> lists[p] != lists[q]
    modifies lists, entries, cache, pool`slices, pool`free, pool`made, pool.free
    ensures cache.Valid() && pool.Grown() && |rs| == |targets| == |tries| == |found| == |conns|
    ensures cache.log == Replay.InsertedAll(old(cache.log), cache.capacity, Added(conns, tries))
    ensures AllDecided(old(cache.log), cache.capacity, old(Contents(lists)), conns, tries, rs)
    ensures Configurations(old(Contents(lists)), Contents(lists), conns)
    ensures forall k :: 0 <= k < |conns| ==> Reached(conns[k], tries[k], rs[k], found[k], targets[k])
  {
    hide SlicePool.Pool.Valid, Replay.ReplayCache.Valid, AllDecided, Reached, Configured, Added;
    hide Replay.InsertedAll, Within, Known, Configurations, KeysAt, LogAt;
    ghost var before, log := Contents(lists), cache.log;
    rs, targets, tries, found := [], [], [], [];
    NoConnections(log, cache.capacity, before);
    var i := 0;
    while i < |conns|
      invariant i <= |conns| && |rs| == |targets| == |tries| == |found| == i
      invariant cache.Valid() && pool.Valid() && old(pool.slices) <= pool.slices && old(pool.made) <= pool.made
      invariant fresh(pool.slices - old(pool.slices)) && fresh(pool.made - old(pool.made))
      invariant forall b :: b in pool.free ==> b in old(pool.free) || fresh(b)
      invariant Known(conns, Contents(lists), entries) && Configurations(before, Contents(lists), conns[..i])
      invariant cache.log == Replay.InsertedAll(log, cache.capacity, Added(conns[..i], tries))
      invariant AllDecided(log, cache.capacity, before, conns[..i], tries, rs)
      invariant forall k :: 0 <= k < i ==> fresh(targets[k]) && Reached(conns[k], tries[k], rs[k], found[k], targets[k])
    {
      var r, target;
      ghost var t, entry;
      r, target, t, entry := HandleNext(conns, i, lists, entries, cache, pool, log, before, tries, rs);
      rs, targets, tries, found := rs + [r], targets + [target], tries + [t], found + [entry];
      i := i + 1;
    }
    assert conns[..i] == conns;
  }
}
