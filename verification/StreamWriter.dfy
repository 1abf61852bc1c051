/**
 * The encrypting writer: one buffer holding salt, length block and payload
 * block, encrypted in place, with lazy writes and a concurrent `Flush`.
 *
 * `Flush` may run on another thread, under the lock. The one place where that
 * matters is `ReadFrom`, which releases the lock while it waits for its first
 * read. There the model runs an arbitrary schedule of flushes, interleaved
 * with the arrival of the bytes being read.
 */
module StreamWriter {
  import opened ByteSeqs
  import opened Crypto
  import opened StreamFormat
  import opened Io

  /**
   * What has happened so far: `chunks` were encrypted and handed to the sink,
   * `queue` waits in the buffer, and together they are what was accepted.
   */
  ghost predicate History(
    a: Aead, salt: Bytes, chunks: seq<Bytes>, queue: Bytes, accepted: Bytes, attempted: Bytes)
  {
    && ValidChunks(chunks) && NoneEmpty(chunks) && |queue| <= MAX_PAYLOAD
    && attempted == Wire(a, salt, chunks)
    && accepted == Flat(chunks) + queue
  }

  lemma HistoryEmpty(a: Aead, salt: Bytes)
    ensures History(a, salt, [], [], [], [])
  {
  }

  lemma HistoryFlush(
    a: Aead, salt: Bytes, chunks: seq<Bytes>, queue: Bytes, accepted: Bytes, attempted: Bytes)
    requires History(a, salt, chunks, queue, accepted, attempted) && queue != []
    ensures History(a, salt, chunks + [queue], [], accepted,
                    attempted + FlushBytes(a, salt, 2 * |chunks|, queue))
  {
    hide Wire, Flat, FlushBytes;
    WireSnoc(a, salt, chunks, queue);
    FlatSnoc(chunks, queue);
  }

  lemma HistoryQueue(
    a: Aead, salt: Bytes, chunks: seq<Bytes>, queue: Bytes, accepted: Bytes, attempted: Bytes, data: Bytes)
    requires History(a, salt, chunks, queue, accepted, attempted)
    requires |queue| + |data| <= MAX_PAYLOAD
    ensures History(a, salt, chunks, queue + data, accepted + data, attempted)
  {
    hide Wire, Flat;
    assert Flat(chunks) + queue + data == Flat(chunks) + (queue + data);
  }

  // -------------------------------------------------------- how data is cut into chunks

  /** Pieces of maximal size, and the rest. */
  function Cut(p: Bytes): seq<Bytes>
    decreases |p|
  {
    if p == [] then [] else if |p| <= MAX_PAYLOAD then [p] else [p[..MAX_PAYLOAD]] + Cut(p[MAX_PAYLOAD..])
  }

  lemma {:induction false} CutIsValid(p: Bytes)
    ensures Flat(Cut(p)) == p && ValidChunks(Cut(p)) && NoneEmpty(Cut(p))
    ensures p != [] ==> MAX_PAYLOAD * (|Cut(p)| - 1) < |p|
    decreases |p|
  {
    if |p| > MAX_PAYLOAD {
      CutIsValid(p[MAX_PAYLOAD..]);
      assert Cut(p)[1..] == Cut(p[MAX_PAYLOAD..]);
    } else if p != [] {
      FlatOne(p);
    }
  }

  lemma {:induction false} FlatAtMost(chunks: seq<Bytes>)
    requires ValidChunks(chunks)
    ensures |Flat(chunks)| <= MAX_PAYLOAD * |chunks|
  {
    if chunks != [] {
      FlatAtMost(chunks[1..]);
    }
  }

  /** No way of cutting p takes fewer chunks. */
  lemma CutIsShortest(p: Bytes, chunks: seq<Bytes>)
    requires ValidChunks(chunks) && Flat(chunks) == p
    ensures Flat(Cut(p)) == p && ValidChunks(Cut(p)) && |Cut(p)| <= |chunks|
  {
    CutIsValid(p);
    FlatAtMost(chunks);
  }

  lemma CutFull(full: Bytes, more: Bytes)
    requires |full| == MAX_PAYLOAD && more != []
    ensures Cut(full + more) == [full] + Cut(more)
  {
    assert (full + more)[..MAX_PAYLOAD] == full && (full + more)[MAX_PAYLOAD..] == more;
  }

  /** Chunks that are all full are the first ones of whatever they are followed by. */
  lemma {:induction false} FullChunksFirst(chunks: seq<Bytes>, x: Bytes)
    requires forall i :: 0 <= i < |chunks| ==> |chunks[i]| == MAX_PAYLOAD
    ensures Cut(Flat(chunks) + x) == chunks + Cut(x)
  {
    if chunks == [] {
      assert Flat(chunks) + x == x;
    } else {
      var more := Flat(chunks[1..]) + x;
      FullChunksFirst(chunks[1..], x);
      assert Flat(chunks) + x == chunks[0] + more;
      if more != [] {
        CutFull(chunks[0], more);
      } else {
        assert chunks[0] + more == chunks[0];
      }
      assert chunks == [chunks[0]] + chunks[1..];
    }
  }

  function OneChunk(p: Bytes): seq<Bytes> {
    if p == [] then [] else [p]
  }

  /** What the first read delivers that has room for max bytes. */
  function FirstRead(pieces: seq<Bytes>, max: nat): Bytes {
    if pieces == [] then [] else pieces[0][..Min(|pieces[0]|, max)]
  }

  function AfterRead(pieces: seq<Bytes>, max: nat): seq<Bytes> {
    LeftOf(pieces, |FirstRead(pieces, max)|)
  }

  /** One chunk for every read that delivers something. */
  function Reads(pieces: seq<Bytes>): seq<Bytes>
    decreases |Flat(pieces)| + |pieces|
  {
    if pieces == [] then []
    else OneChunk(FirstRead(pieces, MAX_PAYLOAD)) + Reads(AfterRead(pieces, MAX_PAYLOAD))
  }

  /** The same, but what waits goes along with the first read. */
  function FirstReads(queue: Bytes, pieces: seq<Bytes>): seq<Bytes>
    requires |queue| <= MAX_PAYLOAD
  {
    var max := MAX_PAYLOAD - |queue|;
    OneChunk(queue + FirstRead(pieces, max)) + Reads(AfterRead(pieces, max))
  }

  /** One round of `LazyWrite` keeps what is sent, waits and is still to come cut in the same way. */
  lemma LazyStep(queue: Bytes, p: Bytes, n: nat, full: Bytes, queue': Bytes, chunks: seq<Bytes>, chunks': seq<Bytes>)
    requires n <= |p|
    requires if n == |p| then chunks' == chunks && queue' == queue + p
             else |full| == MAX_PAYLOAD && full == queue + p[..n] && queue' == [] && chunks' == chunks + [full]
    ensures chunks' + Cut(queue' + p[n..]) == chunks + Cut(queue + p)
  {
    hide Cut;
    if n < |p| {
      assert queue + p == full + p[n..] && queue' + p[n..] == p[n..];
      CutFull(full, p[n..]);
    } else {
      assert queue' + p[n..] == queue + p;
    }
  }

  lemma ReadsStep(pieces: seq<Bytes>, chunks: seq<Bytes>)
    ensures var data := FirstRead(pieces, MAX_PAYLOAD);
      chunks + OneChunk(data) + Reads(LeftOf(pieces, |data|)) == chunks + Reads(pieces)
  {
  }

  lemma NothingWaits(pieces: seq<Bytes>)
    ensures FirstReads([], pieces) == Reads(pieces)
  {
    if pieces != [] {
      assert [] + FirstRead(pieces, MAX_PAYLOAD) == FirstRead(pieces, MAX_PAYLOAD);
    }
  }

  /** The pieces of a source that holds one slice. */
  function Whole(p: Bytes): seq<Bytes> {
    if p == [] then [] else [p]
  }

  lemma FirstOfOne(p: Bytes, max: nat)
    ensures var n := Min(|p|, max);
      FirstRead(Whole(p), max) == p[..n] && AfterRead(Whole(p), max) == Whole(p[n..])
  {
  }

  lemma {:induction false} ReadsOfOne(p: Bytes)
    ensures Reads(Whole(p)) == Cut(p)
    decreases |p|
  {
    if p != [] {
      var n := Min(|p|, MAX_PAYLOAD);
      FirstOfOne(p, MAX_PAYLOAD);
      ReadsOfOne(p[n..]);
      hide FirstRead, AfterRead;
      assert n == |p| ==> p[..n] == p;
    }
  }

  /** A whole slice is read in the pieces into which it is cut together with what waits. */
  lemma FirstReadsOfOne(queue: Bytes, p: Bytes)
    requires |queue| <= MAX_PAYLOAD
    ensures FirstReads(queue, Whole(p)) == Cut(queue + p)
  {
    hide Cut, Reads, FirstRead, AfterRead, Whole, OneChunk;
    var n := Min(|p|, MAX_PAYLOAD - |queue|);
    FirstOfOne(p, MAX_PAYLOAD - |queue|);
    ReadsOfOne(p[n..]);
    var front, rest := queue + p[..n], p[n..];
    assert FirstReads(queue, Whole(p)) == OneChunk(front) + Cut(rest);
    CutBehind(front, rest);
    SplitBehind(queue, p, n);
  }

  lemma SplitBehind(queue: Bytes, p: Bytes, n: nat)
    requires n <= |p|
    ensures queue + p == (queue + p[..n]) + p[n..]
  {
  }

  /** A full chunk goes ahead, and one that is not full has nothing behind it. */
  lemma CutBehind(front: Bytes, rest: Bytes)
    requires |front| <= MAX_PAYLOAD && (|front| < MAX_PAYLOAD ==> rest == [])
    ensures Cut(front + rest) == OneChunk(front) + Cut(rest)
  {
    if rest != [] {
      CutFull(front, rest);
    } else {
      assert front + rest == front;
    }
  }

  lemma CutShort(p: Bytes)
    requires |p| <= MAX_PAYLOAD
    ensures Cut(p) == OneChunk(p) && Cut([]) == [] && Reads([]) == []
  {
  }

  /**
   * How many bytes of a concurrent read land before a flush, between its two
   * blocks, and between its second block and its write.
   */
  datatype Landing = Landing(before: nat, afterLength: nat, afterPayload: nat)

  /** The generator succeeded, and what it made is where the salt is. */
  ghost predicate MadeBy(salt: Bytes, g: Option<Bytes>) {
    g.Some? && var n := Min(|g.value|, |salt|); salt[..n] == g.value[..n]
  }

  class Writer {
    const cipher: Cipher
    const sink: Sink
    /** What the salt generator puts into the zeroed salt buffer on its i-th call; None is an error. */
    const saltGen: nat -> Option<Bytes>

    var saltCalls: nat
    var needFlush: bool
    var pending: nat
    var aead: Option<Aead>
    var buf: array<byte>
    var counter: array<byte>

    ghost var salt: Bytes
    /** The payloads encrypted so far, one per chunk. */
    ghost var chunks: seq<Bytes>
    /** The plaintext waiting in the buffer. */
    ghost var queue: Bytes
    /** Every plaintext byte taken from the caller so far. */
    ghost var accepted: Bytes

    /** Between calls: data waits in the buffer only while a flush is allowed. */
    ghost predicate Valid()
      reads this, buf, counter, sink
    {
      Inv() && (!needFlush ==> pending == 0) && (aead.None? ==> !needFlush)
    }

    /** Holds whenever the lock is free or held. */
    ghost predicate Inv()
      reads this`pending, this`aead, this`buf, this`counter, this`salt, this`chunks, this`queue, this`accepted
      reads this`saltCalls, buf, counter, sink
    {
      && SaltInv()
      && sink.Valid() && buf != counter
      && pending <= MAX_PAYLOAD && |queue| == pending
      && (aead.None? ==>
            pending == 0 && chunks == [] && accepted == [] && sink.attempted == [])
      && (aead.Some? ==>
            && Layout()
            && buf[PayloadStart()..PayloadStart() + pending] == queue
            && counter[..] == BlockNonce(aead.value, 2 * |chunks|)
            && History(aead.value, salt, chunks, queue, accepted, sink.attempted))
    }

    /** The salt is the first one that the generator made; until then it has failed every time. */
    ghost predicate SaltInv()
      reads this`saltCalls, this`aead, this`salt
    {
      if aead.None? then forall j: nat :: j < saltCalls ==> saltGen(j).None?
      else
        && saltCalls > 0 && (forall j: nat :: j < saltCalls - 1 ==> saltGen(j).None?)
        && MadeBy(salt, saltGen(saltCalls - 1))
    }

    /** The buffer starts with the salt and holds one chunk of maximal size. */
    ghost predicate Layout()
      requires aead.Some?
      reads this`aead, this`salt, this`buf, this`counter, buf
    {
      var a := aead.value;
      && |salt| == cipher.saltSize && a == cipher.newAead(salt)
      && buf != counter && counter.Length == a.nonceSize
      && buf.Length == PayloadStart() + MAX_PAYLOAD + a.overhead
      && buf[..|salt|] == salt
    }

    /** The payload block starts after the salt, the length and its tag. */
    function PayloadStart(): nat
      requires aead.Some?
      reads this`aead
    {
      cipher.saltSize + 2 + aead.value.overhead
    }

    /** The salt on which all sessions of this writer rest, once there is a key. */
    lemma SaltIsFirstMade(k: nat)
      requires Valid() && aead.Some? && saltGen(k).Some? && forall j: nat :: j < k ==> saltGen(j).None?
      ensures MadeBy(salt, saltGen(k))
      ensures |saltGen(k).value| == cipher.saltSize ==> salt == saltGen(k).value
    {
      assert saltCalls - 1 == k;
    }

    constructor (cipher: Cipher, sink: Sink, saltGen: nat -> Option<Bytes>)
      requires sink.Valid() && sink.attempted == []
      ensures Valid() && fresh(buf) && fresh(counter)
      ensures this.cipher == cipher && this.sink == sink && this.saltGen == saltGen
      ensures chunks == [] && accepted == [] && queue == [] && aead.None? && !needFlush && saltCalls == 0
    {
      this.cipher, this.sink, this.saltGen := cipher, sink, saltGen;
      saltCalls, needFlush, pending, aead := 0, false, 0, None;
      buf, counter := new byte[0], new byte[0];
      salt, chunks, queue, accepted := [], [], [], [];
    }

    /** Is a salt still needed, and will the generator fail to make it? */
    predicate SaltWillFail()
      reads this`aead, this`saltCalls
    {
      aead.None? && saltGen(saltCalls).None?
    }

    /** Generates the salt and lays out the buffer, once. */
    method Init() returns (err: Option<Err>)
      requires Valid()
      modifies this
      ensures Valid()
      ensures err.None? <==> aead.Some?
      ensures err == if old(SaltWillFail()) then Some(SaltFailed) else None
      ensures fresh({buf, counter} - {old(buf), old(counter)})
      ensures chunks == old(chunks) && accepted == old(accepted) && queue == old(queue)
      ensures pending == old(pending) && needFlush == old(needFlush)
      ensures saltCalls == old(saltCalls) + if old(aead.None?) then 1 else 0
      ensures old(aead.Some?) ==> salt == old(salt) && aead == old(aead)
      // A new key rests on what the generator has just made.
      ensures old(aead.None?) && err.None? ==>
                && MadeBy(salt, saltGen(old(saltCalls)))
                && (|saltGen(old(saltCalls)).value| == cipher.saltSize ==> salt == saltGen(old(saltCalls)).value)
                && aead == Some(cipher.newAead(salt))
    {
      hide LawfulAead, ToInt, ToByte, History;
      if aead.None? {
        var s := saltGen(saltCalls);
        saltCalls := saltCalls + 1;
        if s.None? {
          return Some(SaltFailed);
        }
        Allocate(Fill(cipher.saltSize, s.value));
        HistoryEmpty(aead.value, salt);
      }
      return None;
    }

    /** Derives the session key and allocates the buffer, with the salt at its start. */
    method Allocate(s: Bytes)
      requires |s| == cipher.saltSize
      modifies this`salt, this`aead, this`buf, this`counter
      ensures fresh(buf) && fresh(counter)
      ensures aead.Some? && salt == s && Layout() && counter[..] == BlockNonce(aead.value, 0)
    {
      hide LawfulAead;
      var a := cipher.newAead(s);
      salt, aead := s, Some(a);
      counter := new byte[a.nonceSize](_ => 0);
      buf := new byte[cipher.saltSize + 2 + a.overhead + MAX_PAYLOAD + a.overhead](_ => 0);
      Store(buf, 0, s);
      ZeroCounter(counter[..]);
    }

    /** Encrypts `len` bytes at `at` in place and steps the counter. */
    method EncryptBlock(a: Aead, at: nat, len: nat) returns (total: nat)
      requires LawfulAead(a) && counter.Length == a.nonceSize
      requires buf != counter && at + len + a.overhead <= buf.Length
      modifies buf, counter
      ensures total == len + a.overhead
      ensures buf[at..at + total] == a.seal(old(counter[..]), old(buf[at..at + len]))
      ensures counter[..] == Succ(old(counter[..]))
      ensures forall i :: 0 <= i < buf.Length && !(at <= i < at + total) ==> buf[i] == old(buf[i])
    {
      var out := a.seal(counter[..], buf[at..at + len]);
      Store(buf, at, out);
      Increment(counter);
      return |out|;
    }

    /** Seals the length block in place, as block k. */
    method SealLength(ghost k: nat)
      requires aead.Some? && pending <= MAX_PAYLOAD && Layout()
      requires counter[..] == BlockNonce(aead.value, k)
      modifies buf, counter
      ensures Layout() && counter[..] == BlockNonce(aead.value, k + 1)
      ensures buf[cipher.saltSize..PayloadStart()] == aead.value.seal(BlockNonce(aead.value, k), PutUint16(pending))
      ensures forall i :: PayloadStart() <= i < buf.Length ==> buf[i] == old(buf[i])
    {
      Store(buf, cipher.saltSize, PutUint16(pending));
      var _ := EncryptBlock(aead.value, cipher.saltSize, 2);
      SuccNonce(aead.value.nonceSize, k);
      assert buf[..cipher.saltSize] == salt;
    }

    /** Seals the payload block in place, as block k, behind what is in front of it. */
    method SealPayload(ghost k: nat, ghost front: Bytes)
      requires aead.Some? && pending <= MAX_PAYLOAD && |queue| == pending && Layout()
      requires front == buf[..PayloadStart()] && buf[PayloadStart()..PayloadStart() + pending] == queue
      requires counter[..] == BlockNonce(aead.value, k)
      modifies buf, counter
      ensures Layout() && counter[..] == BlockNonce(aead.value, k + 1)
      ensures var end := PayloadStart() + pending + aead.value.overhead;
        && buf[..end] == front + aead.value.seal(BlockNonce(aead.value, k), queue)
        && forall i :: end <= i < buf.Length ==> buf[i] == old(buf[i])
    {
      ghost var ps := PayloadStart();
      var total := EncryptBlock(aead.value, PayloadStart(), pending);
      SuccNonce(aead.value.nonceSize, k);
      assert buf[..ps] == front && buf[..ps + total] == buf[..ps] + buf[ps..ps + total];
      assert buf[..cipher.saltSize] == front[..cipher.saltSize];
    }

    /** A read in progress on another thread puts the next m bytes of `data` at buf[lo..]. */
    method Land(lo: nat, data: Bytes, stored: nat, m: nat) returns (now: nat)
      requires Landed(lo, data, stored)
      modifies buf
      ensures now == stored + Min(m, |data| - stored) && Landed(lo, data, now)
      ensures forall i :: 0 <= i < buf.Length && !(lo + stored <= i < lo + now) ==> buf[i] == old(buf[i])
    {
      now := stored + Min(m, |data| - stored);
      ghost var before := buf[lo..lo + stored];
      Store(buf, lo + stored, data[stored..now]);
      assert buf[lo..lo + stored] == before;
      assert buf[lo..lo + now] == buf[lo..lo + stored] + buf[lo + stored..lo + now];
      assert data[..now] == data[..stored] + data[stored..now];
    }

    /** The first `stored` bytes of `data` are in the buffer at `lo`. */
    ghost predicate Landed(lo: nat, data: Bytes, stored: nat)
      reads this`buf, buf
    {
      stored <= |data| && lo + |data| <= buf.Length && buf[lo..lo + stored] == data[..stored]
    }

    /** Seals the length block as block k; then more bytes land above. */
    method SealLengthBeside(ghost k: nat, lo: nat, data: Bytes, stored: nat, m: nat)
      returns (now: nat, ghost front: Bytes)
      requires aead.Some? && pending <= MAX_PAYLOAD && |queue| == pending && Layout()
      requires buf[PayloadStart()..PayloadStart() + pending] == queue
      requires counter[..] == BlockNonce(aead.value, k)
      requires PayloadStart() + pending + aead.value.overhead <= lo && Landed(lo, data, stored)
      modifies buf, counter
      ensures Layout() && counter[..] == BlockNonce(aead.value, k + 1)
      ensures front == buf[..PayloadStart()] && buf[PayloadStart()..PayloadStart() + pending] == queue
      ensures |front| == PayloadStart() && |salt| == cipher.saltSize && front[..|salt|] == salt
      ensures front[|salt|..] == aead.value.seal(BlockNonce(aead.value, k), PutUint16(|queue|))
      ensures stored <= now && Landed(lo, data, now)
      ensures forall i :: PayloadStart() <= i < buf.Length && !(lo + stored <= i < lo + now) ==> buf[i] == old(buf[i])
    {
      hide LawfulAead, Supported, BlockNonce, Nonce, PutUint16;
      SealLength(k);
      assert Landed(lo, data, stored);
      front := buf[..PayloadStart()];
      assert front[cipher.saltSize..] == buf[cipher.saltSize..PayloadStart()];
      assert front[..|salt|] == buf[..|salt|];
      now := Land(lo, data, stored, m);
      assert buf[..PayloadStart()] == front;
      assert buf[PayloadStart()..PayloadStart() + pending] == queue;
    }

    /** Seals the payload block as block k; then more bytes land above. */
    method SealPayloadBeside(ghost k: nat, ghost front: Bytes, lo: nat, data: Bytes, stored: nat, m: nat)
      returns (now: nat)
      requires aead.Some? && pending <= MAX_PAYLOAD && |queue| == pending && Layout()
      requires front == buf[..PayloadStart()] && buf[PayloadStart()..PayloadStart() + pending] == queue
      requires counter[..] == BlockNonce(aead.value, k)
      requires PayloadStart() + pending + aead.value.overhead <= lo && Landed(lo, data, stored)
      modifies buf, counter
      ensures Layout() && counter[..] == BlockNonce(aead.value, k + 1)
      ensures var end := PayloadStart() + pending + aead.value.overhead;
        && buf[..end] == front + aead.value.seal(BlockNonce(aead.value, k), queue)
        && forall i :: end <= i < buf.Length && !(lo + stored <= i < lo + now) ==> buf[i] == old(buf[i])
      ensures stored <= now && Landed(lo, data, now)
    {
      hide LawfulAead, Supported, BlockNonce, Nonce, PutUint16;
      SealPayload(k, front);
      assert Landed(lo, data, stored);
      ghost var sent := buf[..PayloadStart() + pending + aead.value.overhead];
      assert sent[..|salt|] == buf[..|salt|];
      now := Land(lo, data, stored, m);
      assert buf[..|sent|] == sent;
      assert buf[..|salt|] == sent[..|salt|];
    }

    /**
     * Seals the pending chunk in place, while another thread's read may go on
     * above it; `out` is what goes on the wire.
     */
    method SealPending(ghost k: nat, lo: nat, data: Bytes, stored: nat, l: Landing) returns (out: Bytes, now: nat)
      requires aead.Some? && pending <= MAX_PAYLOAD && |queue| == pending && Layout()
      requires buf[PayloadStart()..PayloadStart() + pending] == queue
      requires counter[..] == BlockNonce(aead.value, k)
      requires PayloadStart() + pending + aead.value.overhead <= lo && Landed(lo, data, stored)
      modifies buf, counter
      ensures Layout() && counter[..] == BlockNonce(aead.value, k + 2)
      ensures out == FlushBytes(aead.value, salt, k, queue)
      ensures stored <= now && Landed(lo, data, now)
      ensures var end := PayloadStart() + pending + aead.value.overhead;
        forall i | end <= i < buf.Length && !(lo + stored <= i < lo + now) :: buf[i] == old(buf[i])
    {
      hide LawfulAead, Supported, BlockNonce, Nonce, PutUint16, Landed, Layout;
      var ps, end := PayloadStart(), PayloadStart() + pending + aead.value.overhead;
      var isFirst := IsZero(counter);
      ghost var front;
      now, front := SealLengthBeside(k, lo, data, stored, l.afterLength);
      now := SealPayloadBeside(k + 1, front, lo, data, now, l.afterPayload);
      WhatIsSent(aead.value, salt, k, queue, front, aead.value.seal(BlockNonce(aead.value, k + 1), queue));
      LayoutFacts();
      out := buf[..end][if isFirst then 0 else cipher.saltSize..];
    }

    lemma LayoutFacts()
      requires aead.Some? && Layout()
      ensures LawfulAead(aead.value) && |salt| == cipher.saltSize && buf[..|salt|] == salt
      ensures buf.Length == PayloadStart() + MAX_PAYLOAD + aead.value.overhead
    {
    }

    /** Sends the pending data, which must not be empty, as one chunk, while bytes may land above. */
    method SendChunk(lo: nat, data: Bytes, stored: nat, l: Landing) returns (ok: bool, now: nat)
      requires Inv() && aead.Some? && pending > 0
      requires PayloadStart() + pending + aead.value.overhead <= lo && Landed(lo, data, stored)
      modifies this`pending, this`chunks, this`queue, buf, counter, sink
      ensures Inv() && pending == 0
      ensures chunks == old(chunks) + [old(queue)]
      ensures stored <= now && Landed(lo, data, now)
      ensures var end := PayloadStart() + old(pending) + aead.value.overhead;
        forall i | end <= i < buf.Length && !(lo + stored <= i < lo + now) :: buf[i] == old(buf[i])
      ensures sink.failures == old(sink.failures) + (if ok then 0 else 1)
    {
      hide SaltInv, History, FlushBytes, BlockNonce, LawfulAead, Supported, Pow256, Nonce, Landed;
      HistoryFlush(aead.value, salt, chunks, queue, accepted, sink.attempted);
      var out;
      out, now := SealPending(2 * |chunks|, lo, data, stored, l);
      var n;
      n, ok := sink.Write(out);
      pending, chunks, queue := 0, chunks + [queue], [];
    }

    /** Encrypts all pending data as one chunk and writes it out, while bytes may land above. */
    method FlushBeside(lo: nat, data: Bytes, stored: nat, l: Landing) returns (err: Option<Err>, now: nat)
      requires Inv() && aead.Some?
      requires PayloadStart() + pending + aead.value.overhead <= lo && Landed(lo, data, stored)
      modifies this`pending, this`chunks, this`queue, buf, counter, sink
      ensures Inv() && pending == 0
      ensures chunks == if old(pending) == 0 then old(chunks) else old(chunks) + [old(queue)]
      ensures stored <= now && Landed(lo, data, now)
      ensures var end := PayloadStart() + old(pending) + aead.value.overhead;
        forall i | end <= i < buf.Length && !(lo + stored <= i < lo + now) :: buf[i] == old(buf[i])
      ensures sink.failures == old(sink.failures) + (if err.None? then 0 else 1)
      ensures err.Some? ==> err == Some(SinkFailed)
    {
      hide SaltInv, Layout, History, BlockNonce, LawfulAead, Supported, Landed;
      if pending == 0 {
        return None, stored;
      }
      var ok;
      ok, now := SendChunk(lo, data, stored, l);
      err := if ok then None else Some(SinkFailed);
    }

    /** Encrypts all pending data as one chunk and writes it out. */
    method FlushPending() returns (err: Option<Err>)
      requires Inv() && aead.Some?
      modifies this`pending, this`chunks, this`queue, buf, counter, sink
      ensures Inv() && pending == 0
      ensures chunks == if old(pending) == 0 then old(chunks) else old(chunks) + [old(queue)]
      // The flushing thread stays below the tag of the pending payload.
      ensures forall i :: PayloadStart() + old(pending) + aead.value.overhead <= i < buf.Length ==>
                buf[i] == old(buf[i])
      ensures sink.failures == old(sink.failures) + (if err.None? then 0 else 1)
      ensures err.Some? ==> err == Some(SinkFailed)
    {
      BufferLength();
      var now;
      err, now := FlushBeside(buf.Length, [], 0, Landing(0, 0, 0));
    }

    /** Moves `n` bytes of plaintext behind the pending ones; the regions may overlap. */
    method CopyPlaintext(src: nat, n: nat)
      requires aead.Some? && pending + n <= MAX_PAYLOAD && Layout()
      requires PayloadStart() + pending <= src && src + n <= buf.Length
      requires buf[PayloadStart()..PayloadStart() + pending] == queue
      modifies this`pending, this`queue, buf
      ensures Layout() && pending == old(pending) + n
      ensures queue == old(queue) + old(buf[src..src + n])
      ensures buf[PayloadStart()..PayloadStart() + pending] == queue
    {
      hide Supported;
      ghost var data := buf[src..src + n];
      CopyDown(buf, PayloadStart() + pending, src, n);
      assert buf[..|salt|] == salt;
      pending, queue := pending + n, queue + data;
    }

    /** Queues as much of buf[src..src+n] as fits into the payload block. */
    method EnqueueFrom(src: nat, n: nat) returns (taken: nat)
      requires Inv() && aead.Some?
      requires PayloadStart() + pending <= src && src + n <= buf.Length
      modifies this`pending, this`accepted, this`queue, buf
      ensures Inv()
      ensures taken == Min(n, MAX_PAYLOAD - old(pending)) && pending == old(pending) + taken
      ensures accepted == old(accepted) + old(buf[src..src + n])[..taken]
      ensures queue == old(queue) + old(buf[src..src + n])[..taken]
    {
      hide SaltInv, Layout, History, BlockNonce, LawfulAead, Supported;
      taken := Min(n, MAX_PAYLOAD - pending);
      assert buf[src..src + n][..taken] == buf[src..src + taken];
      HistoryQueue(aead.value, salt, chunks, queue, accepted, sink.attempted, buf[src..src + taken]);
      accepted := accepted + buf[src..src + taken];
      CopyPlaintext(src, taken);
    }

    /** Stores `data` behind the pending bytes. */
    method StorePlaintext(data: Bytes)
      requires aead.Some? && pending + |data| <= MAX_PAYLOAD && Layout()
      requires buf[PayloadStart()..PayloadStart() + pending] == queue
      modifies this`pending, this`queue, buf
      ensures Layout() && pending == old(pending) + |data| && queue == old(queue) + data
      ensures buf[PayloadStart()..PayloadStart() + pending] == queue
    {
      hide Supported;
      Store(buf, PayloadStart() + pending, data);
      assert buf[..|salt|] == salt;
      pending, queue := pending + |data|, queue + data;
    }

    /** Queues as much of `p`, a slice of the caller's, as fits into the payload block. */
    method Enqueue(p: Bytes) returns (taken: nat)
      requires Inv() && aead.Some?
      modifies this`pending, this`accepted, this`queue, buf
      ensures Inv()
      ensures taken == Min(|p|, MAX_PAYLOAD - old(pending)) && pending == old(pending) + taken
      ensures accepted == old(accepted) + p[..taken] && queue == old(queue) + p[..taken]
    {
      hide SaltInv, Layout, History, BlockNonce, LawfulAead, Supported;
      taken := Min(|p|, MAX_PAYLOAD - pending);
      HistoryQueue(aead.value, salt, chunks, queue, accepted, sink.attempted, p[..taken]);
      accepted := accepted + p[..taken];
      StorePlaintext(p[..taken]);
    }

    lemma QueueLength()
      requires Inv()
      ensures |queue| == pending <= MAX_PAYLOAD
    {
    }

    lemma BufferLength()
      requires Inv() && aead.Some?
      ensures buf.Length == PayloadStart() + MAX_PAYLOAD + aead.value.overhead
      ensures pending <= MAX_PAYLOAD
    {
    }

    /** One round of `LazyWrite`: queues what fits, and sends the full buffer if something is left. */
    method QueueOrSend(p: Bytes) returns (n: nat, err: Option<Err>, ghost full: Bytes)
      requires Inv() && aead.Some?
      modifies this`pending, this`accepted, this`queue, this`chunks, buf, counter, sink
      ensures Inv() && n <= |p| && accepted == old(accepted) + p[..n]
      ensures if n == |p| then chunks == old(chunks) && queue == old(queue) + p
              else
                && pending == 0 && |full| == MAX_PAYLOAD
                && full == old(queue) + p[..n] && chunks == old(chunks) + [full]
      ensures n == 0 && p != [] ==> old(pending) == MAX_PAYLOAD
      ensures err.Some? ==> err == Some(SinkFailed) && n < |p|
      ensures sink.failures == old(sink.failures) + if err.None? then 0 else 1
    {
      hide Inv;
      QueueLength();
      n := Enqueue(p);
      err, full := None, [];
      if n < |p| {
        QueueLength();
        full := queue;
        err := FlushPending();
      }
    }

    /** The chunks sent since `before` are all completely full. */
    ghost predicate OnlyFullChunksSince(before: seq<Bytes>)
      reads this`chunks
    {
      before <= chunks && forall i :: |before| <= i < |chunks| ==> |chunks[i]| == MAX_PAYLOAD
    }

    /** Queues p without sending it, except for the full chunks that overflow the buffer. */
    method LazyWrite(p: Bytes) returns (queued: nat, err: Option<Err>)
      requires Valid()
      modifies this, buf, counter, sink
      ensures Valid() && fresh({buf, counter} - {old(buf), old(counter)})
      ensures queued <= |p| && accepted == old(accepted) + p[..queued]
      ensures err.None? ==> queued == |p| && aead.Some? && needFlush
      ensures (err == Some(SaltFailed) <==> old(SaltWillFail())) && (err != Some(SaltFailed) ==> aead.Some?)
      ensures err.Some? ==> err == Some(SaltFailed) || err == Some(SinkFailed)
      ensures sink.failures == old(sink.failures) + if err == Some(SinkFailed) then 1 else 0
      ensures OnlyFullChunksSince(old(chunks))
      ensures old(aead.Some?) ==> salt == old(salt) && aead == old(aead)
    {
      hide Inv, Cut;
      err := Init();
      if err.Some? {
        return 0, err;
      }
      ghost var buf0, counter0, aead0, salt0 := buf, counter, aead, salt;
      queued := 0;
      assert p[0..] == p;
      while true
        invariant Inv() && aead.Some? && buf == buf0 && counter == counter0 && aead == aead0 && salt == salt0
        invariant needFlush == old(needFlush)
        invariant queued <= |p| && accepted == old(accepted) + p[..queued]
        invariant sink.failures == old(sink.failures)
        invariant OnlyFullChunksSince(old(chunks))
        invariant chunks + Cut(queue + p[queued..]) == old(chunks) + Cut(old(queue) + p)
        decreases |p| - queued, pending == MAX_PAYLOAD
      {
        var n;
        ghost var full;
        QueueLength();
        ghost var before, before0 := queue, chunks;
        n, err, full := QueueOrSend(p[queued..]);
        QueueLength();
        LazyStep(before, p[queued..], n, full, queue, before0, chunks);
        assert p[queued..][n..] == p[queued + n..];
        assert p[..queued] + p[queued..][..n] == p[..queued + n];
        queued := queued + n;
        if err.Some? {
          return queued, err;
        }
        if queued == |p| {
          needFlush := true;
          return queued, None;
        }
      }
    }

    /** Sends the pending data, if a flush is allowed; other threads may call it at any time. */
    method Flush() returns (err: Option<Err>)
      requires Valid()
      modifies this`pending, this`chunks, this`queue, buf, counter, sink
      ensures Valid() && pending <= old(pending)
      ensures needFlush ==> pending == 0
      ensures old(chunks) <= chunks
      ensures aead.Some? ==>
        forall i :: PayloadStart() + old(pending) + aead.value.overhead <= i < buf.Length ==>
          buf[i] == old(buf[i])
      ensures err.Some? ==> err == Some(SinkFailed)
      ensures sink.failures == old(sink.failures) + if err.None? then 0 else 1
    {
      if !needFlush {
        return None;
      }
      err := FlushPending();
    }

    /** The reading thread stores bytes above the region a flush may touch, while no flush is under way. */
    method StoreAbove(lo: nat, data: Bytes, stored: nat, m: nat) returns (now: nat)
      requires Inv() && aead.Some? && PayloadStart() + pending <= lo && Landed(lo, data, stored)
      modifies buf
      ensures Inv() && stored <= now && Landed(lo, data, now)
      ensures m >= |data| - stored ==> now == |data|
      ensures forall i :: 0 <= i < lo ==> buf[i] == old(buf[i])
    {
      hide SaltInv, History, BlockNonce, LawfulAead, Supported;
      now := Land(lo, data, stored, m);
      assert buf[..|salt|] == salt;
      assert buf[PayloadStart()..PayloadStart() + pending] == queue;
    }

    /** `Flush` on another thread, while a read on this one goes on above what the flush may touch. */
    method FlushMeanwhile(lo: nat, data: Bytes, stored: nat, l: Landing) returns (err: Option<Err>, now: nat)
      requires Valid() && aead.Some?
      requires PayloadStart() + pending + aead.value.overhead <= lo && Landed(lo, data, stored)
      modifies this`pending, this`chunks, this`queue, buf, counter, sink
      ensures Valid() && pending <= old(pending) && (needFlush ==> pending == 0)
      ensures chunks == if !needFlush || old(pending) == 0 then old(chunks) else old(chunks) + [old(queue)]
      ensures stored <= now && Landed(lo, data, now)
      ensures sink.failures == old(sink.failures) + if err.None? then 0 else 1
    {
      hide Inv, Landed;
      if !needFlush {
        return None, stored;
      }
      err, now := FlushBeside(lo, data, stored, l);
    }

    /**
     * Runs flushes of other threads while `data` arrives at buf[lo..]: bytes
     * land before the i-th flush and between its steps, as schedule[i] says.
     */
    method ArriveDuringFlushes(lo: nat, data: Bytes, schedule: seq<Landing>)
      requires Valid() && aead.Some? && needFlush
      requires PayloadStart() + pending + aead.value.overhead <= lo && lo + |data| <= buf.Length
      modifies this`pending, this`chunks, this`queue, buf, counter, sink
      ensures Valid() && pending <= old(pending) && old(chunks) <= chunks
      ensures buf[lo..lo + |data|] == data
      ensures schedule == [] ==> sink.failures == old(sink.failures) && chunks == old(chunks) && queue == old(queue)
      ensures old(sink.failures) <= sink.failures
    {
      hide Inv;
      var stored: nat, i: nat := 0, 0;
      while i < |schedule|
        invariant i <= |schedule| && Landed(lo, data, stored)
        invariant Valid() && pending <= old(pending) && old(chunks) <= chunks
        invariant if i > 0 then old(sink.failures) <= sink.failures
                  else sink.failures == old(sink.failures) && chunks == old(chunks) && queue == old(queue)
      {
        stored := StoreAbove(lo, data, stored, schedule[i].before);
        var flushErr;
        flushErr, stored := FlushMeanwhile(lo, data, stored, schedule[i]);
        i := i + 1;
      }
      stored := StoreAbove(lo, data, stored, |data|);
      assert data[..|data|] == data;
    }

    /** There is room for all that the first read may deliver, above what a flush may touch. */
    lemma ReadBuffer(lo: nat)
      requires Inv() && aead.Some? && lo == PayloadStart() + pending + aead.value.overhead
      ensures lo <= buf.Length && buf.Length - lo == MAX_PAYLOAD - pending
    {
    }

    /** The first read of `ReadFrom` while data is pending: the lock is free during the read. */
    method ReadWhilePending(r: Source, schedule: seq<Landing>)
      returns (n: nat, err: Option<Err>, ghost data: Bytes)
      requires Valid() && aead.Some? && needFlush
      modifies this`pending, this`chunks, this`queue, this`accepted, this`needFlush, buf, counter, sink, r
      ensures Valid() && pending == 0 && !needFlush && old(chunks) <= chunks
      // Every byte read is accepted, whether or not a flush came in between.
      ensures old(r.Rest()) == data + r.Rest() && accepted == old(accepted) + data && n == |data|
      ensures err.Some? && err != Some(SinkFailed) ==> err.value == r.end && r.pieces == []
      ensures old(sink.failures) + (if err == Some(SinkFailed) then 1 else 0) <= sink.failures
      ensures schedule == [] && err != Some(SinkFailed) ==> sink.failures == old(sink.failures)
      // Without a flush in between, what was pending goes into one chunk with what is read.
      ensures schedule == [] ==> chunks == old(chunks) + OneChunk(old(queue) + data)
      ensures schedule == [] ==> chunks + Reads(r.pieces) == old(chunks) + old(FirstReads(queue, r.pieces))
    {
      hide Inv, Source.Rest, LeftOf, Reads;
      QueueLength();
      // The first pending+overhead payload bytes belong to the flushing thread.
      var lo := PayloadStart() + pending + aead.value.overhead;
      ReadBuffer(lo);
      var bytes;
      bytes, err := r.Next(buf.Length - lo);
      n, data := |bytes|, bytes;
      ArriveDuringFlushes(lo, bytes, schedule);
      // The lock is held again.
      err := TakeOver(lo, |bytes|, bytes, err);
    }

    /** Queues and sends the bytes read, then disallows concurrent flushes. */
    method TakeOver(lo: nat, n: nat, ghost data: Bytes, readErr: Option<Err>) returns (err: Option<Err>)
      requires n == |data|
      requires Inv() && aead.Some? && PayloadStart() + pending <= lo
      requires lo + |data| <= buf.Length && buf[lo..lo + |data|] == data
      requires |data| <= MAX_PAYLOAD - pending
      modifies this`pending, this`chunks, this`queue, this`accepted, this`needFlush, buf, counter, sink
      ensures Valid() && pending == 0 && !needFlush && old(chunks) <= chunks
      ensures accepted == old(accepted) + data && chunks == old(chunks) + OneChunk(old(queue) + data)
      ensures if sink.failures == old(sink.failures) then err == readErr
              else err == Some(SinkFailed) && sink.failures == old(sink.failures) + 1
    {
      hide Inv;
      QueueLength();
      var taken := EnqueueFrom(lo, n);
      assert data[..taken] == data;
      QueueLength();
      err := FlushPending();
      if err.None? {
        err := readErr;
      }
      needFlush := false;
    }

    /** One round of the transfer loop: reads into the payload block and sends it. */
    method TransferOnce(r: Source) returns (n: nat, err: Option<Err>, ghost data: Bytes)
      requires Inv() && aead.Some? && pending == 0
      modifies this`pending, this`chunks, this`queue, this`accepted, buf, counter, sink, r
      ensures Inv() && pending == 0 && old(chunks) <= chunks
      ensures old(r.Rest()) == data + r.Rest() && accepted == old(accepted) + data && n == |data|
      ensures chunks + Reads(r.pieces) == old(chunks) + old(Reads(r.pieces))
      ensures r.Size() <= old(r.Size()) && (err.None? ==> r.Size() < old(r.Size()))
      ensures err != Some(SinkFailed) && err.Some? ==> err.value == r.end && r.pieces == []
      ensures sink.failures == old(sink.failures) + if err == Some(SinkFailed) then 1 else 0
    {
      hide Inv, Reads, LeftOf, Source.Rest, Source.Size, OneChunk;
      ReadsStep(r.pieces, chunks);
      var bytes;
      bytes, err := r.Next(MAX_PAYLOAD);
      n, data := |bytes|, bytes;
      var flushErr := SendAtOnce(bytes);
      if flushErr.Some? {
        err := flushErr;
      }
    }

    /** Sends these bytes as a chunk, when nothing is pending. */
    method SendAtOnce(bytes: Bytes) returns (err: Option<Err>)
      requires Inv() && aead.Some? && pending == 0 && |bytes| <= MAX_PAYLOAD
      modifies this`pending, this`chunks, this`queue, this`accepted, buf, counter, sink
      ensures Inv() && pending == 0
      ensures accepted == old(accepted) + bytes && chunks == old(chunks) + OneChunk(bytes)
      ensures err.Some? ==> err == Some(SinkFailed)
      ensures sink.failures == old(sink.failures) + if err.None? then 0 else 1
    {
      hide Inv;
      QueueLength();
      var taken := Enqueue(bytes);
      assert bytes[..taken] == bytes && queue == bytes;
      QueueLength();
      err := FlushPending();
    }

    /** The main transfer loop: reads and sends until there is an error, which may be the end of the source. */
    method TransferAll(r: Source) returns (n: nat, err: Option<Err>, ghost data: Bytes)
      requires Inv() && aead.Some? && pending == 0
      modifies this`pending, this`chunks, this`queue, this`accepted, buf, counter, sink, r
      ensures Inv() && pending == 0 && old(chunks) <= chunks
      ensures old(r.Rest()) == data + r.Rest() && accepted == old(accepted) + data && n == |data|
      ensures chunks + Reads(r.pieces) == old(chunks) + old(Reads(r.pieces))
      ensures err.Some? && (err != Some(SinkFailed) ==> err.value == r.end && r.pieces == [])
      ensures sink.failures == old(sink.failures) + if err == Some(SinkFailed) then 1 else 0
    {
      hide Inv, Reads;
      n, err, data := 0, None, [];
      while err.None?
        invariant Inv() && pending == 0 && old(chunks) <= chunks
        invariant old(r.Rest()) == data + r.Rest() && accepted == old(accepted) + data && n == |data|
        invariant chunks + Reads(r.pieces) == old(chunks) + old(Reads(r.pieces))
        invariant err.Some? && err != Some(SinkFailed) ==> err.value == r.end && r.pieces == []
        invariant sink.failures == old(sink.failures) + if err == Some(SinkFailed) then 1 else 0
        decreases r.Size(), err.None?
      {
        var m;
        ghost var more;
        m, err, more := TransferOnce(r);
        n, data := n + m, data + more;
      }
    }

    /**
     * Encrypts and sends everything r has to give, after any pending data.
     * `schedule` says when other threads flush during the first read.
     */
    method ReadFrom(r: Source, schedule: seq<Landing>)
      returns (written: nat, err: Option<Err>, ghost data: Bytes)
      requires Valid()
      modifies this, buf, counter, sink, r
      ensures Valid() && fresh({buf, counter} - {old(buf), old(counter)}) && old(chunks) <= chunks
      ensures old(r.Rest()) == data + r.Rest() && accepted == old(accepted) + data && written == |data|
      ensures err == Some(SaltFailed) <==> old(SaltWillFail())
      ensures err == Some(SaltFailed) ==> data == [] && sink.failures == old(sink.failures)
      ensures err != Some(SaltFailed) ==> aead.Some? && pending == 0 && !needFlush
      // Only a failing write of this call is reported, not one of a concurrent flush.
      ensures old(sink.failures) + (if err == Some(SinkFailed) then 1 else 0) <= sink.failures
      ensures schedule == [] || !old(needFlush) ==> (err == Some(SinkFailed) <==> sink.failures != old(sink.failures))
      // Unless another thread flushes, what was pending goes into one chunk with the first read.
      ensures (schedule == [] || !old(needFlush)) && err != Some(SaltFailed) && err != Some(SinkFailed) ==>
                chunks == old(chunks) + old(FirstReads(queue, r.pieces))
      ensures err != Some(SaltFailed) && err != Some(SinkFailed) ==>
                r.Rest() == [] && err == if r.end == Eof then None else Some(r.end)
      ensures old(aead.Some?) ==> salt == old(salt) && aead == old(aead)
    {
      hide Inv, Reads, FirstReads;
      QueueLength();
      if !needFlush {
        NothingWaits(r.pieces);
      }
      written, data := 0, [];
      err := Init();
      if err.Some? {
        return 0, err, [];
      }
      if needFlush {
        written, err, data := ReadWhilePending(r, schedule);
      }
      if err.None? {
        var n;
        ghost var more;
        n, err, more := TransferAll(r);
        written, data := written + n, data + more;
      }
      CutShort([]);
      if err == Some(Eof) {
        return written, None, data;
      }
    }

    /** Encrypts and sends p, after any pending data. */
    method Write(p: Bytes, schedule: seq<Landing>) returns (n: nat, err: Option<Err>)
      requires Valid()
      modifies this, buf, counter, sink
      ensures Valid() && fresh({buf, counter} - {old(buf), old(counter)}) && old(chunks) <= chunks
      ensures n <= |p| && accepted == old(accepted) + p[..n]
      ensures (err == Some(SaltFailed) <==> old(SaltWillFail())) && (err != Some(SaltFailed) ==> aead.Some?)
      ensures err.Some? ==> err == Some(SaltFailed) || err == Some(SinkFailed)
      ensures err.None? ==> n == |p| && pending == 0
      // Unless another thread flushes, the pending bytes and p go out in the fewest chunks.
      ensures (schedule == [] || !old(needFlush)) && err.None? ==> chunks == old(chunks) + Cut(old(queue) + p)
      ensures old(sink.failures) + (if err == Some(SinkFailed) then 1 else 0) <= sink.failures
      ensures old(aead.Some?) ==> salt == old(salt) && aead == old(aead)
    {
      hide Inv, Cut, FirstReads;
      var wrapper := new Source(Whole(p), Eof, false);
      FlatOne(p);
      QueueLength();
      FirstReadsOfOne(queue, p);
      assert wrapper.Rest() == p;
      ghost var data;
      n, err, data := ReadFrom(wrapper, schedule);
      assert data == p[..n];
    }
  }

  /** A zeroed buffer of n bytes after `data` has been stored from its start. */
  function Fill(n: nat, data: Bytes): (b: Bytes)
    ensures |b| == n && MadeBy(b, Some(data))
  {
    seq(n, i requires 0 <= i < n => if i < |data| then data[i] else 0)
  }

  /** Salt, length block and payload block, put together. */
  lemma WhatIsSent(a: Aead, salt: Bytes, k: nat, payload: Bytes, front: Bytes, body: Bytes)
    requires |salt| <= |front| && front[..|salt|] == salt
    requires front[|salt|..] == a.seal(BlockNonce(a, k), PutUint16(|payload|))
    requires body == a.seal(BlockNonce(a, k + 1), payload)
    ensures (front + body)[if AllZero(BlockNonce(a, k)) then 0 else |salt|..] == FlushBytes(a, salt, k, payload)
  {
    hide BlockNonce, PutUint16, AllZero;
    assert (front + body)[|salt|..] == front[|salt|..] + body;
    assert (front + body)[0..] == salt + (front[|salt|..] + body);
  }
}
