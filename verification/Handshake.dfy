/**
 * The TCP handshake: finding the access key by trial decryption, refusing the
 * server's own salts and replayed ones, and handing the stream on.
 */
module Handshake {
  import opened ByteSeqs
  import opened Crypto
  import opened Format = StreamFormat
  import opened Io
  import opened ServerSalt
  import opened CipherList
  import opened KeySearch
  import opened Replay

  /** Trial decryption over a snapshot: the first entry that authenticates the bytes. */
  method FindEntry(firstBytes: Bytes, ciphers: seq<CipherEntry>) returns (entry: CipherEntry?)
    requires |firstBytes| == KEY_FINDING_BYTES
    ensures match FirstMatch(ciphers, Stream(firstBytes))
      case None => entry == null
      case Some(i) => entry == ciphers[i]
  {
    hide DecryptOnce, Supported, FirstMatch;
    FirstMatchIsFirst(ciphers, Stream(firstBytes));
    for i := 0 to |ciphers|
      invariant forall j :: 0 <= j < i ==> !Authenticates(ciphers[j].cipher, firstBytes)
    {
      var e := ciphers[i];
      KeyFindingBytesSuffice(e.cipher);
      var salt := firstBytes[..e.cipher.saltSize];
      var cipherText := firstBytes[e.cipher.saltSize..e.cipher.saltSize + 2 + e.cipher.tagSize];
      if DecryptOnce(e.cipher, salt, 2, cipherText).Opened? {
        return e;
      }
    }
    return null;
  }

  // ---------------------------------------------------------------- the decision

  /** What the key search tells the replay defence about an authenticated handshake. */
  datatype Auth = Auth(id: Bytes, salt: Bytes, serverMarked: bool)

  function AuthOf(e: CipherEntry, firstBytes: Bytes): Auth
    requires |firstBytes| == KEY_FINDING_BYTES
  {
    KeyFindingBytesSuffice(e.cipher);
    var salt := firstBytes[..e.cipher.saltSize];
    Auth(e.id, salt, IsServerSalt(e.saltGenerator, salt))
  }

  /** The outcome of the key search over the entries in this order. */
  function FoundIn(es: seq<CipherEntry>, firstBytes: Bytes): Option<Auth>
    requires |firstBytes| == KEY_FINDING_BYTES
  {
    match FirstMatch(es, Stream(firstBytes))
    case None => None
    case Some(i) => Some(AuthOf(es[i], firstBytes))
  }

  /** Plain search of a stream, over the keys alone: it is found if and only if a key opens it. */
  lemma FoundIffSomeKeyOpens(es: seq<CipherEntry>, order: seq<CipherEntry>, stream: Bytes)
    requires multiset(es) == multiset(order)
    ensures Found(order, stream).None? <==> forall e :: e in es ==> !OpensStream(e.cipher, stream)
  {
    hide Authenticates, FirstMatch, AuthOf, Supported, OpensStream;
    forall e | e in es
      ensures |stream| >= KEY_FINDING_BYTES ==>
                (Opens(e.cipher, Stream(stream[..KEY_FINDING_BYTES])) <==> OpensStream(e.cipher, stream))
      ensures OpensStream(e.cipher, stream) ==> |stream| >= KEY_FINDING_BYTES
    {
      AuthenticatesIffOpens(e.cipher, stream);
      OnlyLongStreamsOpen(e.cipher, stream);
    }
    if |stream| >= KEY_FINDING_BYTES {
      OnlyMatchIsFound(es, order, Stream(stream[..KEY_FINDING_BYTES]));
    }
  }

  lemma OnlyLongStreamsOpen(c: Cipher, stream: Bytes)
    ensures OpensStream(c, stream) ==> |stream| >= KEY_FINDING_BYTES
  {
  }

  /** The outcome for a whole connection, which may be too short to contain a handshake. */
  function Found(es: seq<CipherEntry>, stream: Bytes): Option<Auth> {
    if |stream| < KEY_FINDING_BYTES then None else FoundIn(es, stream[..KEY_FINDING_BYTES])
  }

  datatype Status = ErrCipher | ErrReplayServer | ErrReplayClient | Accepted

  function Classify(log: seq<Hash>, cap: nat, found: Option<Auth>): Status {
    match found
    case None => ErrCipher
    case Some(a) =>
      if a.serverMarked then ErrReplayServer
      else if Answer(log, cap, HashOf(a.id, a.salt)) then Accepted
      else ErrReplayClient
  }

  /** Only authenticated handshakes with salts that are not the server's enter the cache. */
  predicate Enters(found: Option<Auth>) {
    found.Some? && !found.value.serverMarked
  }

  function LogAfter(log: seq<Hash>, cap: nat, found: Option<Auth>): seq<Hash> {
    if Enters(found) then Inserted(log, cap, HashOf(found.value.id, found.value.salt)) else log
  }

  /** A reader that first repeats the bytes already read (`io.MultiReader`). */
  method Rejoin(first: Bytes, src: Source) returns (reader: Source)
    ensures fresh(reader) && reader.Rest() == first + src.Rest() && reader.end == src.end
  {
    reader := new Source([first] + src.pieces, src.end, src.eager && src.pieces != []);
    FlatAppend([first], src.pieces);
    FlatOne(first);
  }

  /** The search once the first bytes are there, and what is handed on if it succeeds. */
  method Search(first: Bytes, src: Source, ciphers: seq<CipherEntry>)
    returns (entry: CipherEntry?, reader: Source, salt: Bytes)
    requires |first| == KEY_FINDING_BYTES
    ensures entry == null <==> FoundIn(ciphers, first).None?
    ensures entry != null ==>
              && entry in ciphers && Authenticates(entry.cipher, first)
              && entry.cipher.saltSize <= KEY_FINDING_BYTES && salt == first[..entry.cipher.saltSize]
              && FoundIn(ciphers, first) == Some(AuthOf(entry, first))
              && reader.Rest() == first + src.Rest() && reader.end == src.end
    ensures reader == src || fresh(reader)
  {
    hide Authenticates, Supported, FirstMatch, AuthOf;
    entry := FindEntry(first, ciphers);
    FirstMatchIsFirst(ciphers, Stream(first));
    reader, salt := src, [];
    if entry != null {
      KeyFindingBytesSuffice(entry.cipher);
      salt := first[..entry.cipher.saltSize];
      reader := Rejoin(first, src);
    }
  }

  /**
   * The access key search of one connection; the reader replays the bytes used
   * for the search. Between the snapshot and the mark other threads may do
   * anything to the list: `meanwhile` says what.
   */
  method FindAccessKey(src: Source, clientIP: Option<Ip>, keys: KeyList, meanwhile: seq<Event<CipherEntry>>)
    returns (entry: CipherEntry?, reader: Source, salt: Bytes, ghost order: seq<CipherEntry>)
    modifies src, keys, keys.list, Marked(meanwhile)
    ensures multiset(order) == multiset(old(keys.list))
    ensures multiset(keys.list) == multiset(Configured(old(keys.list), meanwhile))
    ensures order == old(Partition(keys.list, keys.Flags(clientIP)))
    ensures entry == null <==> Found(order, old(src.Rest())).None?
    ensures entry != null ==>
              && |old(src.Rest())| >= KEY_FINDING_BYTES
              && var first := old(src.Rest())[..KEY_FINDING_BYTES];
              && Authenticates(entry.cipher, first)
              && entry.cipher.saltSize <= KEY_FINDING_BYTES && salt == first[..entry.cipher.saltSize]
              && Found(order, old(src.Rest())) == Some(AuthOf(entry, first))
              && reader.Rest() == old(src.Rest()) && reader.end == src.end
    ensures entry != null ==> entry in order
    ensures reader == src || fresh(reader)
    ensures entry == null ==> keys.list == After(old(keys.list), meanwhile)
    ensures entry != null ==>
              && keys.list == MovedToFront<CipherEntry>(After(old(keys.list), meanwhile), entry)
              && entry.lastClientIP == clientIP
  {
    hide Authenticates, Supported, FirstMatch, Partition, AuthOf, FoundIn, After, Configured, UsedBy;
    ghost var stream := src.Rest();
    var ciphers := TakeSnapshot(clientIP, keys);
    AlwaysWhatWasConfigured(keys.list, meanwhile);
    assert forall e :: e in ciphers ==> e in multiset(ciphers) && e in keys.list;
    keys.Others(meanwhile);
    var firstBytes := new byte[KEY_FINDING_BYTES](_ => 0);
    var err := ReadFull(src, firstBytes, KEY_FINDING_BYTES);
    if err.Some? {
      return null, src, [], ciphers;
    }
    var first := firstBytes[..];
    assert first == firstBytes[..KEY_FINDING_BYTES];
    assert stream == stream[..KEY_FINDING_BYTES] + stream[KEY_FINDING_BYTES..];
    entry, reader, salt := Search(first, src, ciphers);
    order := ciphers;
    if entry != null {
      NoteUse(entry, clientIP, keys);
    }
  }

  /**
   * The decision in terms of the keys, the mark and the memory alone: an error of
   * the cipher if no key opens the stream, and otherwise the entry is one whose
   * key does, refused for its mark or because it is remembered.
   */
  ghost predicate DecidedBy(status: Status, entry: CipherEntry?, es: seq<CipherEntry>, stream: Bytes, log: seq<Hash>,
      cap: nat)
  {
    && (status == ErrCipher <==> forall e :: e in es ==> !OpensStream(e.cipher, stream))
    && (status != ErrCipher ==>
          && entry != null && entry in es && OpensStream(entry.cipher, stream)
          && var salt := stream[..entry.cipher.saltSize];
          && (status == ErrReplayServer <==> EndsInMark(entry.saltGenerator, salt))
          && (status == Accepted <==>
                && !EndsInMark(entry.saltGenerator, salt)
                && (cap == 0 || HashOf(entry.id, salt) !in Window(log, cap))))
  }

  lemma DecisionIsBy(entry: CipherEntry?, es: seq<CipherEntry>, order: seq<CipherEntry>, stream: Bytes, log: seq<Hash>,
      cap: nat)
    requires multiset(es) == multiset(order) && (entry == null <==> Found(order, stream).None?)
    requires entry != null ==>
               && |stream| >= KEY_FINDING_BYTES && entry in order
               && Authenticates(entry.cipher, stream[..KEY_FINDING_BYTES])
               && Found(order, stream) == Some(AuthOf(entry, stream[..KEY_FINDING_BYTES]))
    ensures DecidedBy(Classify(log, cap, Found(order, stream)), entry, es, stream, log, cap)
  {
    hide Authenticates, FirstMatch, IsServerSalt, HashOf, Found, OpensStream, EndsInMark, Window, Supported;
    FoundIffSomeKeyOpens(es, order, stream);
    if entry != null {
      assert entry in multiset(order);
      AuthenticatesIffOpens(entry.cipher, stream);
      KeyFindingBytesSuffice(entry.cipher);
      PrefixOfPrefix(stream, KEY_FINDING_BYTES, entry.cipher.saltSize);
      RecognisedByItsMark(entry.saltGenerator, stream[..entry.cipher.saltSize]);
    }
  }

  /**
   * The decision for one connection. Meanwhile other threads may do anything to
   * the list of keys, and `others` are the handshakes that they add to the cache.
   */
  method Decide(src: Source, clientIP: Option<Ip>, keys: KeyList, meanwhile: seq<Event<CipherEntry>>,
      cache: ReplayCache, others: seq<Hash>)
    returns (status: Status, entry: CipherEntry?, reader: Source, ghost order: seq<CipherEntry>)
    requires cache.Valid()
    modifies src, keys, keys.list, Marked(meanwhile), cache
    ensures cache.Valid() && multiset(order) == multiset(old(keys.list))
    ensures multiset(keys.list) == multiset(Configured(old(keys.list), meanwhile))
    ensures var found, log := Found(order, old(src.Rest())), InsertedAll(old(cache.log), cache.capacity, others);
      && status == Classify(log, cache.capacity, found)
      && cache.log == LogAfter(log, cache.capacity, found)
    ensures DecidedBy(status, entry, old(keys.list), old(src.Rest()),
                      InsertedAll(old(cache.log), cache.capacity, others), cache.capacity)
    ensures status.Accepted? ==>
              && entry != null && entry in order && |old(src.Rest())| >= KEY_FINDING_BYTES
              && Authenticates(entry.cipher, old(src.Rest())[..KEY_FINDING_BYTES])
              && reader.Rest() == old(src.Rest()) && reader.end == src.end
    ensures reader == src || fresh(reader)
  {
    hide Found, IsServerSalt, Answer, Inserted, InsertedAll, HashOf, Authenticates;
    hide DecidedBy, OpensStream, EndsInMark, Window, Partition, After, Configured;
    ghost var es, stream := keys.list, src.Rest();
    var salt;
    entry, reader, salt, order := FindAccessKey(src, clientIP, keys, meanwhile);
    DecisionIsBy(entry, es, order, stream, InsertedAll(cache.log, cache.capacity, others), cache.capacity);
    cache.Others(others);
    if entry == null {
      return ErrCipher, entry, reader, order;
    }
    if IsServerSalt(entry.saltGenerator, salt) {
      return ErrReplayServer, entry, reader, order;
    }
    var isNew := cache.Add(entry.id, salt);
    status := if isNew then Accepted else ErrReplayClient;
  }

  // ------------------------------------------------- the search against plain search

  /** The entries that could be taken for the client's all say the same about this stream. */
  ghost predicate Unambiguous(es: seq<CipherEntry>, firstBytes: Bytes)
    requires |firstBytes| == KEY_FINDING_BYTES
  {
    forall x, y :: x in es && y in es && Authenticates(x.cipher, firstBytes) && Authenticates(y.cipher, firstBytes)
      ==> AuthOf(x, firstBytes) == AuthOf(y, firstBytes)
  }

  /** The order of the keys does not matter to the decision. */
  lemma SearchIgnoresOrder(es: seq<CipherEntry>, order: seq<CipherEntry>, stream: Bytes)
    requires multiset(es) == multiset(order)
    requires |stream| >= KEY_FINDING_BYTES ==> Unambiguous(es, stream[..KEY_FINDING_BYTES])
    ensures Found(es, stream) == Found(order, stream)
  {
    hide Authenticates, FirstMatch, AuthOf;
    if |stream| >= KEY_FINDING_BYTES {
      var first := stream[..KEY_FINDING_BYTES];
      FirstMatchIsFirst(es, Stream(first));
      FirstMatchIsFirst(order, Stream(first));
      var i, j := FirstMatch(es, Stream(first)), FirstMatch(order, Stream(first));
      if i.Some? {
        assert es[i.value] in multiset(order);
      }
      if j.Some? {
        assert order[j.value] in multiset(es);
      }
    }
  }

  // ------------------------------------------------------------------ whole runs

  /** One connection on some port: the order in which its keys were tried, and what it sent. */
  datatype Attempt = Attempt(order: seq<CipherEntry>, stream: Bytes)

  function Outcome(t: Attempt): Option<Auth> {
    Found(t.order, t.stream)
  }

  /** The shared cache's log after a run of connections on any ports. */
  function LogOver(log: seq<Hash>, cap: nat, run: seq<Attempt>): seq<Hash>
    decreases |run|
  {
    if run == [] then log else LogOver(LogAfter(log, cap, Outcome(run[0])), cap, run[1..])
  }

  /** The hashes of those connections of a run that reach the cache. */
  function Entering(run: seq<Attempt>): seq<Hash> {
    if run == [] then []
    else
      var f := Outcome(run[0]);
      (if Enters(f) then [HashOf(f.value.id, f.value.salt)] else []) + Entering(run[1..])
  }

  /** Connections that do not authenticate, or bring back a server salt, leave the cache alone. */
  lemma {:induction false} OnlyAuthenticatedEnter(log: seq<Hash>, cap: nat, run: seq<Attempt>)
    ensures LogOver(log, cap, run) == InsertedAll(log, cap, Entering(run))
    decreases |run|
  {
    hide Found, HashOf, Inserted;
    if run != [] {
      var f := Outcome(run[0]);
      OnlyAuthenticatedEnter(LogAfter(log, cap, f), cap, run[1..]);
      if Enters(f) {
        assert Entering(run)[1..] == Entering(run[1..]);
      } else {
        assert Entering(run) == Entering(run[1..]);
      }
    }
  }

  /**
   * A handshake that reached the cache is refused as a replay whenever the same
   * key search result comes up again, on any port, before more than `cap` other
   * handshakes have reached the cache.
   */
  lemma ReplayIsRefused(log: seq<Hash>, cap: nat, first: Attempt, between: seq<Attempt>, again: Attempt)
    requires cap > 0 && |Entering(between)| <= cap
    requires Enters(Outcome(first)) && Outcome(again) == Outcome(first)
    ensures Classify(LogOver(LogAfter(log, cap, Outcome(first)), cap, between), cap, Outcome(again))
         == ErrReplayClient
  {
    hide HashOf, Inserted, Answer, InsertedAll;
    var f := Outcome(first).value;
    var h := HashOf(f.id, f.salt);
    OnlyAuthenticatedEnter(Inserted(log, cap, h), cap, between);
    RememberedForCapacity(log, cap, h, Entering(between));
  }

  /** In particular: an accepted connection, sent again to the same keys in any order. */
  lemma AcceptedOnlyOnce(log: seq<Hash>, cap: nat, first: Attempt, between: seq<Attempt>, again: Attempt)
    requires cap > 0 && |Entering(between)| <= cap
    requires Classify(log, cap, Outcome(first)) == Accepted
    requires multiset(again.order) == multiset(first.order)
    requires |again.stream| >= KEY_FINDING_BYTES && |first.stream| >= KEY_FINDING_BYTES
    requires again.stream[..KEY_FINDING_BYTES] == first.stream[..KEY_FINDING_BYTES]
    requires Unambiguous(first.order, first.stream[..KEY_FINDING_BYTES])
    ensures Classify(LogOver(LogAfter(log, cap, Outcome(first)), cap, between), cap, Outcome(again))
         == ErrReplayClient
  {
    hide FoundIn, LogOver, LogAfter, Answer, Entering;
    SearchIgnoresOrder(first.order, again.order, again.stream);
    assert Outcome(first) == Outcome(again);
    ReplayIsRefused(log, cap, first, between, again);
  }

  // ------------------------------------------- legitimate and reflected streams

  /** The first length block of a stream lies between the salt and the next bytes. */
  lemma FirstBlock(a: Aead, salt: Bytes, chunks: seq<Bytes>, more: Bytes) returns (b1: Bytes, rest: Bytes)
    requires chunks != [] && NoWrap(a, |chunks|)
    ensures b1 == a.seal(BlockNonce(a, 0), PutUint16(|chunks[0]|))
    ensures Wire(a, salt, chunks) + more == salt + b1 + rest
    ensures |rest| >= |a.seal(BlockNonce(a, 1), chunks[0])|
  {
    hide ToInt, ToByte, Nonce, PutUint16, Wire, NoWrap, Pow256;
    SaltOnceFirst(a, salt, chunks);
    b1 := a.seal(BlockNonce(a, 0), PutUint16(|chunks[0]|));
    var b2 := a.seal(BlockNonce(a, 1), chunks[0]);
    rest := b2 + Blocks(a, 2, chunks[1..]) + more;
    assert Blocks(a, 0, chunks) == (b1 + b2) + Blocks(a, 2, chunks[1..]);
  }

  /** Any stream of at least one chunk is long enough and authenticates under its cipher. */
  lemma StreamAuthenticates(c: Cipher, salt: Bytes, chunks: seq<Bytes>, more: Bytes)
    requires |salt| == c.saltSize && chunks != [] && NoWrap(c.newAead(salt), |chunks|)
    ensures var stream := Wire(c.newAead(salt), salt, chunks) + more;
      && |stream| >= KEY_FINDING_BYTES
      && stream[..c.saltSize] == salt
      && Authenticates(c, stream[..KEY_FINDING_BYTES])
  {
    var b1, rest := FirstBlock(c.newAead(salt), salt, chunks, more);
    hide Nonce, PutUint16, Wire, NoWrap;
    MiddlePart(salt, b1, rest, KEY_FINDING_BYTES);
  }

  lemma MiddlePart(x: Bytes, y: Bytes, z: Bytes, n: nat)
    requires |x| + |y| <= n <= |x| + |y| + |z|
    ensures (x + y + z)[..n][..|x|] == x == (x + y + z)[..|x|]
    ensures (x + y + z)[..n][|x|..|x| + |y|] == y
  {
  }

  lemma PrefixOfPrefix(s: Bytes, n: nat, m: nat)
    requires m <= n <= |s|
    ensures s[..n][..m] == s[..m]
  {
  }

  /** The search recognises any stream that was made with a listed key: its entry and its salt. */
  lemma OwnStreamIsFound(e: CipherEntry, order: seq<CipherEntry>, salt: Bytes, chunks: seq<Bytes>)
    requires |salt| == e.cipher.saltSize && e in order
    requires chunks != [] && NoWrap(e.cipher.newAead(salt), |chunks|)
    requires var stream := Wire(e.cipher.newAead(salt), salt, chunks);
      |stream| >= KEY_FINDING_BYTES ==> Unambiguous(order, stream[..KEY_FINDING_BYTES])
    ensures Found(order, Wire(e.cipher.newAead(salt), salt, chunks))
         == Some(Auth(e.id, salt, IsServerSalt(e.saltGenerator, salt)))
  {
    hide Wire, NoWrap, IsServerSalt, Authenticates, FirstMatch, Supported;
    var stream := Wire(e.cipher.newAead(salt), salt, chunks);
    StreamAuthenticates(e.cipher, salt, chunks, []);
    assert stream + [] == stream;
    var first := stream[..KEY_FINDING_BYTES];
    FirstMatchIsFirst(order, Stream(first));
    KeyFindingBytesSuffice(e.cipher);
    PrefixOfPrefix(stream, KEY_FINDING_BYTES, e.cipher.saltSize);
    assert AuthOf(e, first).salt == salt;
  }

  /**
   * A client with a listed key is accepted if and only if its salt does not end
   * in the server's mark, and the cache is off or does not remember it; it never
   * remembers what was not added.
   */
  lemma LegitimateIsAccepted(e: CipherEntry, order: seq<CipherEntry>, salt: Bytes, chunks: seq<Bytes>,
      log: seq<Hash>, cap: nat)
    requires |salt| == e.cipher.saltSize && e in order
    requires chunks != [] && NoWrap(e.cipher.newAead(salt), |chunks|)
    requires var stream := Wire(e.cipher.newAead(salt), salt, chunks);
      |stream| >= KEY_FINDING_BYTES ==> Unambiguous(order, stream[..KEY_FINDING_BYTES])
    ensures var status := Classify(log, cap, Found(order, Wire(e.cipher.newAead(salt), salt, chunks)));
      && (EndsInMark(e.saltGenerator, salt) ==> status == ErrReplayServer)
      && (!EndsInMark(e.saltGenerator, salt) ==>
            && (status == Accepted <==> cap == 0 || HashOf(e.id, salt) !in Window(log, cap))
            && (HashOf(e.id, salt) !in log ==> status == Accepted))
  {
    hide Wire, NoWrap, IsServerSalt, HashOf, Found, Unambiguous, EndsInMark;
    OwnStreamIsFound(e, order, salt, chunks);
    RecognisedByItsMark(e.saltGenerator, salt);
    if cap > 0 {
      WindowIsOfLog(log, cap);
    }
  }

  /** A server's own marked stream, sent back to it, is refused and does not touch the cache. */
  lemma ReflectionIsRefused(e: CipherEntry, order: seq<CipherEntry>, random: Bytes, salt: Bytes, chunks: seq<Bytes>,
      log: seq<Hash>, cap: nat)
    requires |random| == e.cipher.saltSize && GetSalt(e.saltGenerator, |random|, Some(random)) == Some(salt)
    requires e.saltGenerator.MarkedSalts? && e in order
    requires chunks != [] && NoWrap(e.cipher.newAead(salt), |chunks|)
    requires var stream := Wire(e.cipher.newAead(salt), salt, chunks);
      |stream| >= KEY_FINDING_BYTES ==> Unambiguous(order, stream[..KEY_FINDING_BYTES])
    ensures var found := Found(order, Wire(e.cipher.newAead(salt), salt, chunks));
      Classify(log, cap, found) == ErrReplayServer && LogAfter(log, cap, found) == log
  {
    hide Wire, NoWrap, GetSalt, IsServerSalt, Found, Unambiguous;
    OwnSaltsAreRecognised(e.saltGenerator, random);
    OwnStreamIsFound(e, order, salt, chunks);
  }

  /** What authenticated the search also opens for the stream reader: its salt and first length block. */
  lemma HandOff(c: Cipher, stream: Bytes, end: Err)
    requires |stream| >= KEY_FINDING_BYTES && Authenticates(c, stream[..KEY_FINDING_BYTES])
    ensures var (err, s) := Init(c, Fresh(stream), end);
      err.None? && s.Keyed? && s.block == 0
      && ReadMessage(s.aead, 0, s.bytes, 2 + s.aead.overhead, end).0.Opened?
  {
    hide Nonce, LawfulAead, FirstMatch;
    KeyFindingBytesSuffice(c);
    PrefixOfPrefix(stream, KEY_FINDING_BYTES, c.saltSize);
    MiddleOfPrefix(stream, KEY_FINDING_BYTES, c.saltSize, 2 + c.tagSize);
  }

  lemma MiddleOfPrefix(s: Bytes, n: nat, from: nat, size: nat)
    requires from + size <= n <= |s|
    ensures s[..n][from..from + size] == s[from..][..size]
  {
  }
}
