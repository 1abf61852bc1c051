/** Whole runs: any sequence of writer calls against a reader at the other end. */
module StreamSession {
  import opened ByteSeqs
  import opened Crypto
  import opened StreamFormat
  import opened Io
  import opened SlicePool
  import opened StreamWriter
  import opened StreamReader

  /** One call on a writer; schedules say when other threads flush meanwhile. */
  datatype Call =
    | LazyWrite(p: Bytes)
    | Write(p: Bytes, schedule: seq<Landing>)
    | ReadFrom(pieces: seq<Bytes>, end: SourceErr, eager: bool, schedule: seq<Landing>)
    | Flush

  /** The plaintext a call offers to the writer. */
  function Offered(c: Call): Bytes {
    match c
    case LazyWrite(p) => p
    case Write(p, _) => p
    case ReadFrom(pieces, _, _, _) => Flat(pieces)
    case Flush => []
  }

  function AllOffered(calls: seq<Call>): Bytes {
    if calls == [] then [] else AllOffered(calls[..|calls| - 1]) + Offered(calls[|calls| - 1])
  }

  /** Makes one call; `ok` says that the salt generator did not fail. */
  method Perform(w: Writer, c: Call) returns (ok: bool)
    requires w.Valid()
    modifies w, w.buf, w.counter, w.sink
    ensures w.Valid() && fresh({w.buf, w.counter} - {old(w.buf), old(w.counter)})
    ensures old(w.chunks) <= w.chunks
    ensures ok <==> c.Flush? || !old(w.SaltWillFail())
    ensures !c.Flush? && ok ==> w.aead.Some?
    ensures ok && w.sink.failures == old(w.sink.failures) ==> w.accepted == old(w.accepted) + Offered(c)
    ensures ok && w.sink.failures == old(w.sink.failures) && !c.LazyWrite? ==> w.pending == 0
    ensures old(w.aead.Some?) ==> w.aead == old(w.aead) && w.salt == old(w.salt)
    ensures old(w.sink.failures) <= w.sink.failures
  {
    hide Writer.Valid;
    var err;
    match c {
      case LazyWrite(p) =>
        var n;
        n, err := w.LazyWrite(p);
        assert n == |p| ==> p[..n] == p;
      case Write(p, schedule) =>
        var n;
        n, err := w.Write(p, schedule);
        assert n == |p| ==> p[..n] == p;
      case ReadFrom(pieces, end, eager, schedule) =>
        var r := new Source(pieces, end, eager);
        var n;
        ghost var data;
        n, err, data := w.ReadFrom(r, schedule);
      case Flush =>
        err := w.Flush();
        if !w.needFlush {
          NothingPending(w);
        }
    }
    ok := err != Some(SaltFailed);
  }

  lemma NothingPending(w: Writer)
    requires w.Valid() && !w.needFlush
    ensures w.pending == 0
  {
  }

  /** Any sequence of calls: unless something failed, everything offered has been accepted, in order. */
  method Run(w: Writer, calls: seq<Call>) returns (ok: bool)
    requires w.Valid()
    modifies w, w.buf, w.counter, w.sink
    ensures w.Valid() && old(w.chunks) <= w.chunks
    ensures fresh({w.buf, w.counter} - {old(w.buf), old(w.counter)})
    ensures (forall k :: w.saltGen(k).Some?) ==> ok
    ensures old(w.aead.Some?) ==> w.aead == old(w.aead) && w.salt == old(w.salt)
    ensures ok && w.sink.failures == old(w.sink.failures) ==> w.accepted == old(w.accepted) + AllOffered(calls)
    ensures ok && w.sink.failures == old(w.sink.failures) && calls != [] && !calls[|calls| - 1].LazyWrite? ==>
              w.pending == 0
    ensures (forall k :: w.saltGen(k).Some?) && w.sink.NeverFails() ==>
              w.accepted == old(w.accepted) + AllOffered(calls)
  {
    hide Writer.Valid, Offered, Intact, Pow256;
    ghost var always := forall k :: w.saltGen(k).Some?;
    if w.sink.NeverFails() {
      StaysIntact(w);
    }
    ok := true;
    var i := 0;
    while i < |calls|
      invariant i <= |calls| && w.Valid() && old(w.chunks) <= w.chunks
      invariant fresh({w.buf, w.counter} - {old(w.buf), old(w.counter)})
      invariant old(w.sink.failures) <= w.sink.failures
      invariant always ==> ok
      invariant old(w.aead.Some?) ==> w.aead == old(w.aead) && w.salt == old(w.salt)
      invariant ok && w.sink.failures == old(w.sink.failures) ==>
                  w.accepted == old(w.accepted) + AllOffered(calls[..i])
      invariant ok && w.sink.failures == old(w.sink.failures) && i > 0 && !calls[i - 1].LazyWrite? ==> w.pending == 0
    {
      assert always ==> !w.SaltWillFail();
      var done := Perform(w, calls[i]);
      ok := ok && done;
      assert calls[..i + 1][..i] == calls[..i];
      i := i + 1;
    }
    assert calls[..i] == calls;
    if w.sink.NeverFails() {
      StaysIntact(w);
    }
  }

  /** Nothing that w sent was lost, and its block counter has not come back to zero. */
  ghost predicate Intact(w: Writer)
    reads w, w.sink
  {
    w.sink.failures == 0 && (w.aead.Some? ==> NoWrap(w.aead.value, |w.chunks|))
  }

  /** What the reader at the other end decodes is what was accepted, less what is still pending. */
  lemma ReceivedDecodes(w: Writer)
    requires w.Valid() && Intact(w)
    ensures Decode(w.cipher, Fresh(w.sink.received), Eof) == (w.chunks, Eof)
    ensures w.accepted == Plaintext(w.cipher, Fresh(w.sink.received), Eof) + w.queue
    ensures FinalErr(w.cipher, Fresh(w.sink.received), Eof) == Eof
    ensures NoneEmpty(Decode(w.cipher, Fresh(w.sink.received), Eof).0)
  {
    if w.aead.Some? {
      RoundTrip(w.cipher, w.salt, w.chunks, Eof);
    } else {
      DecodeShortSalt(w.cipher, [], Eof);
    }
  }

  /** Decrypts everything a source has and writes it to `dst`. */
  method DecryptFrom(src: Source, c: Cipher, pool: Pool, dst: Sink) returns (err: Option<Err>)
    requires pool.Valid() && pool.len == READ_BUF_SIZE && dst.Valid()
    modifies src, pool`slices, pool`free, pool`made, pool.free, dst
    ensures pool.Grown() && dst.Valid()
    ensures dst.failures == old(dst.failures) ==>
              var s, end := Fresh(old(src.Rest())), src.end;
              && dst.received == old(dst.received) + Plaintext(c, s, end)
              && err == if FinalErr(c, s, end) == Eof then None else Some(FinalErr(c, s, end))
    // A failing destination has got nothing but a prefix of it.
    ensures old(dst.received) <= dst.received <=
            old(dst.received) + Plaintext(c, Fresh(old(src.Rest())), src.end)
    ensures dst.failures != old(dst.failures) ==> err == Some(SinkFailed)
  {
    hide Plaintext, FinalErr, Supported, LawfulAead, Flat, ChunkReader.Valid, Pool.Valid;
    var reader := new ReadConverter(src, c, pool);
    NewReader(reader);
    ghost var before, plain := dst.received, reader.Plain();
    var n;
    ghost var sent;
    n, err, sent := reader.WriteTo(dst);
    PoolIsValid(reader);
    PrefixesOf(before, sent, plain);
  }

  /** A reader that has nothing left over is about to deliver the plaintext of its source. */
  lemma NewReader(r: ReadConverter)
    requires r.Valid() && r.Leftover() == []
    ensures r.Plain() == Plaintext(r.cr.cipher, r.cr.State(), r.cr.src.end)
    ensures r.End() == FinalErr(r.cr.cipher, r.cr.State(), r.cr.src.end)
  {
    hide Plaintext, FinalErr;
    var plain := Plaintext(r.cr.cipher, r.cr.State(), r.cr.src.end);
    assert [] + plain == plain;
  }

  lemma PrefixesOf(before: Bytes, sent: Bytes, plain: Bytes)
    requires sent <= plain
    ensures before <= before + sent <= before + plain
  {
    assert plain == sent + plain[|sent|..];
    assert (before + plain)[..|before + sent|] == before + sent;
  }

  lemma PoolIsValid(reader: ReadConverter)
    requires reader.Valid()
    ensures reader.cr.pool.Valid()
  {
  }

  /** Decrypts a byte stream that arrives in pieces of any sizes. */
  method DecryptTo(pieces: seq<Bytes>, end: SourceErr, eager: bool, c: Cipher, pool: Pool, dst: Sink)
    returns (err: Option<Err>)
    requires pool.Valid() && pool.len == READ_BUF_SIZE && dst.Valid()
    modifies pool`slices, pool`free, pool`made, pool.free, dst
    ensures pool.Grown() && dst.Valid()
    ensures dst.failures == old(dst.failures) ==>
              var e := FinalErr(c, Fresh(Flat(pieces)), end);
              && dst.received == old(dst.received) + Plaintext(c, Fresh(Flat(pieces)), end)
              && err == if e == Eof then None else Some(e)
    ensures old(dst.received) <= dst.received <= old(dst.received) + Plaintext(c, Fresh(Flat(pieces)), end)
    ensures dst.failures != old(dst.failures) ==> err == Some(SinkFailed)
  {
    hide Plaintext, FinalErr, Supported, LawfulAead, Flat, Pool.Valid;
    var src := new Source(pieces, end, eager);
    err := DecryptFrom(src, c, pool, dst);
  }

  /**
   * Sends what w has put on the wire through a reader, in pieces of any sizes:
   * the destination receives the accepted bytes except those still pending.
   */
  method Receive(w: Writer, pieces: seq<Bytes>, eager: bool, pool: Pool, dst: Sink)
    returns (err: Option<Err>)
    requires w.Valid() && Flat(pieces) == w.sink.received
    requires pool.Valid() && pool.len == READ_BUF_SIZE && dst.Valid()
    modifies pool`slices, pool`free, pool`made, pool.free, dst
    ensures pool.Grown() && dst.Valid()
    ensures old(Intact(w)) && dst.failures == old(dst.failures) ==>
              err.None? && dst.received + old(w.queue) == old(dst.received) + old(w.accepted)
  {
    hide Plaintext, FinalErr, Flat, NoWrap, Supported, Pool.Valid, Pool.Grown, Writer.Valid, Intact;
    if Intact(w) {
      ReceivedDecodes(w);
    }
    err := DecryptTo(pieces, Eof, eager, w.cipher, pool, dst);
  }

  lemma {:induction false} FlatLength(chunks: seq<Bytes>)
    requires NoneEmpty(chunks)
    ensures |chunks| <= |Flat(chunks)|
  {
    if chunks != [] {
      FlatLength(chunks[1..]);
    }
  }

  /**
   * On a connection that never fails, nothing is lost, and the block counter does
   * not come back to zero while the accepted bytes are fewer than its values.
   */
  lemma StaysIntact(w: Writer)
    requires w.Valid() && w.sink.NeverFails()
    ensures w.sink.failures == 0 && (2 * |w.accepted| <= Pow256(NONCE_SIZE) ==> Intact(w))
  {
    hide Pow256, Flat, BlockNonce, Wire;
    w.sink.NoFailures();
    if w.aead.Some? {
      FlatLength(w.chunks);
    }
  }

  /** The bytes in pieces of the given sizes, with what is left over as the last one. */
  function Split(bytes: Bytes, sizes: seq<nat>): (pieces: seq<Bytes>)
    ensures Flat(pieces) == bytes
    decreases |sizes|
  {
    if sizes == [] then
      FlatOne(bytes);
      [bytes]
    else
      var m := Min(sizes[0], |bytes|);
      var pieces := [bytes[..m]] + Split(bytes[m..], sizes[1..]);
      assert pieces[1..] == Split(bytes[m..], sizes[1..]);
      pieces
  }

  /** A new writer after any sequence of calls, if its salt generator never fails. */
  method Send(calls: seq<Call>, c: Cipher, saltGen: nat -> Option<Bytes>, plan: nat -> Option<nat>)
    returns (w: Writer)
    requires forall k :: saltGen(k).Some?
    ensures w.Valid() && w.cipher == c && w.sink.plan == plan
    ensures fresh(w) && fresh(w.sink) && fresh(w.buf) && fresh(w.counter)
    ensures w.sink.failures == 0 ==> w.accepted == AllOffered(calls)
    ensures w.sink.failures == 0 && calls != [] && !calls[|calls| - 1].LazyWrite? ==> w.queue == []
    ensures w.sink.NeverFails() && 2 * |AllOffered(calls)| <= Pow256(NONCE_SIZE) ==> Intact(w)
    ensures w.sink.failures == 0 && w.chunks != [] && |saltGen(0).value| == c.saltSize ==>
              saltGen(0).value <= w.sink.received
  {
    hide Flat, NoWrap, Supported, Writer.Valid, AllOffered, Intact, Pow256;
    var conn := new Sink(plan);
    w := new Writer(c, conn, saltGen);
    var ok := Run(w, calls);
    assert [] + AllOffered(calls) == AllOffered(calls);
    QueueLength(w);
    if w.sink.NeverFails() {
      StaysIntact(w);
    }
    if w.sink.failures == 0 && w.chunks != [] && |saltGen(0).value| == c.saltSize {
      BeginsWithSalt(w, 0);
    }
  }

  /**
   * What lazy writing is for: a header written lazily goes out together with the
   * data written next, and on the wire nothing tells that there were two writes.
   */
  method HeaderThenData(c: Cipher, saltGen: nat -> Option<Bytes>, header: Bytes, p: Bytes) returns (w: Writer)
    requires saltGen(0).Some?
    ensures w.Valid() && w.cipher == c && w.aead.Some? && w.pending == 0
    ensures w.chunks == Cut(header + p)
    ensures w.sink.received == Wire(w.aead.value, w.salt, Cut(header + p))
    ensures |header + p| <= MAX_PAYLOAD ==> w.chunks == OneChunk(header + p)
  {
    hide Writer.Inv, Cut, Wire, NoWrap, Supported;
    var conn := new Sink(_ => None);
    w := new Writer(c, conn, saltGen);
    var n, err := w.LazyWrite(header);
    NeverFailing(w);
    assert header[..n] == header && [] + header == header;
    FullChunksFirst(w.chunks, w.queue + p);
    assert header + p == Flat(w.chunks) + (w.queue + p);
    n, err := w.Write(p, []);
    NeverFailing(w);
    if |header + p| <= MAX_PAYLOAD {
      CutShort(header + p);
    }
  }

  lemma NeverFailing(w: Writer)
    requires w.Valid() && w.sink.NeverFails()
    ensures w.sink.failures == 0
    ensures w.aead.Some? ==> w.accepted == Flat(w.chunks) + w.queue
    ensures w.aead.Some? ==> w.sink.received == Wire(w.aead.value, w.salt, w.chunks)
  {
    w.sink.NoFailures();
  }

  /** What a writer has sent without loss begins with what its generator made first. */
  lemma BeginsWithSalt(w: Writer, k: nat)
    requires w.Valid() && w.chunks != [] && w.sink.failures == 0
    requires w.saltGen(k).Some? && forall j: nat :: j < k ==> w.saltGen(j).None?
    requires |w.saltGen(k).value| == w.cipher.saltSize
    ensures w.saltGen(k).value <= w.sink.received
  {
    w.SaltIsFirstMade(k);
    hide BlockNonce, Wire, Flat, LawfulAead, Supported;
    SaltGoesFirst(w.aead.value, w.salt, w.chunks);
  }

  lemma QueueLength(w: Writer)
    requires w.Valid()
    ensures |w.queue| == w.pending
  {
  }

  /**
   * From a new writer to the destination behind a reader: after any sequence of
   * calls, what was offered arrives, except for what is still pending, unless
   * the connection or the destination failed. If neither ever fails, a sequence
   * that does not end in a lazy write leaves nothing pending.
   */
  method Transfer(calls: seq<Call>, c: Cipher, saltGen: nat -> Option<Bytes>, plan: nat -> Option<nat>,
      sizes: seq<nat>, eager: bool, pool: Pool, dst: Sink)
    returns (w: Writer, err: Option<Err>)
    requires forall k :: saltGen(k).Some?
    requires pool.Valid() && pool.len == READ_BUF_SIZE && dst.Valid()
    modifies pool`slices, pool`free, pool`made, pool.free, dst
    ensures pool.Grown() && dst.Valid()
    ensures w.Valid() && w.cipher == c && w.sink.plan == plan && fresh(w) && fresh(w.sink)
    ensures Intact(w) && dst.failures == old(dst.failures) ==>
              err.None? && dst.received + w.queue == old(dst.received) + AllOffered(calls)
    ensures w.sink.failures == 0 && w.chunks != [] && |saltGen(0).value| == c.saltSize ==>
              saltGen(0).value <= w.sink.received
    ensures (forall i :: plan(i).None?) && dst.NeverFails() && 2 * |AllOffered(calls)| <= Pow256(NONCE_SIZE) ==>
              && err.None? && dst.received + w.queue == old(dst.received) + AllOffered(calls)
              && (calls != [] && !calls[|calls| - 1].LazyWrite? ==>
                    dst.received == old(dst.received) + AllOffered(calls))
  {
    hide Flat, NoWrap, Supported, Pool.Valid, Writer.Valid, AllOffered, Intact, Pow256;
    if dst.NeverFails() {
      dst.NoFailures();
    }
    w := Send(calls, c, saltGen, plan);
    err := Receive(w, Split(w.sink.received, sizes), eager, pool, dst);
    IntactSink(w);
    if dst.NeverFails() {
      dst.NoFailures();
    }
  }

  lemma IntactSink(w: Writer)
    ensures Intact(w) ==> w.sink.failures == 0
  {
  }

  lemma FlatNone()
    ensures Flat([]) == []
  {
  }

  /** One read into a new buffer. */
  method ReadOnce(reader: ReadConverter, size: nat) returns (n: nat, err: Option<Err>, data: Bytes)
    requires reader.Valid()
    modifies reader, reader.cr, reader.cr.src, reader.cr.counter, reader.cr.payloadSizeBuf, reader.cr.payload
    modifies reader.cr.pool`free, reader.cr.pool`made, reader.cr.pool.free, reader.cr.payload.Held()
    ensures reader.Valid()
    ensures err.None? ==> old(reader.Plain()) == data + reader.Plain() && reader.End() == old(reader.End())
    ensures err.None? && old(reader.NoneEmptyAhead()) ==> reader.NoneEmptyAhead() && (size > 0 ==> data != [])
    ensures err.None? ==> n == |data| <= size
    ensures err.None? && data == [] && size > 0 ==> |reader.cr.src.Rest()| < old(|reader.cr.src.Rest()|)
    ensures err.Some? ==> data == [] && err.value == old(reader.End()) && old(reader.Plain()) == []
    ensures fresh({reader.cr.counter, reader.cr.payloadSizeBuf}
                  - {old(reader.cr.counter), old(reader.cr.payloadSizeBuf)})
    ensures fresh(reader.cr.pool.made - old(reader.cr.pool.made)) && old(reader.cr.pool.made) <= reader.cr.pool.made
    ensures forall b :: b in reader.cr.pool.free ==>
              b in old(reader.cr.pool.free) + old(reader.cr.payload.Held()) || fresh(b)
    ensures forall b :: b in reader.cr.payload.Held() ==>
              b in old(reader.cr.pool.free) + old(reader.cr.payload.Held()) || fresh(b)
  {
    hide Plaintext, FinalErr, Decode, Supported, LawfulAead, ChunkReader.State;
    var b := new byte[size](_ => 0);
    n, err := reader.Read(b);
    data := b[..n];
  }

  /** Reads into buffers of the given nonzero sizes until there is an error. */
  method ReadSizes(reader: ReadConverter, sizes: seq<nat>) returns (got: seq<Bytes>, err: Option<Err>)
    requires reader.Valid() && reader.NoneEmptyAhead() && forall i :: 0 <= i < |sizes| ==> sizes[i] > 0
    modifies reader, reader.cr, reader.cr.src, reader.cr.counter, reader.cr.payloadSizeBuf, reader.cr.payload
    modifies reader.cr.pool`free, reader.cr.pool`made, reader.cr.pool.free, reader.cr.payload.Held()
    ensures reader.Valid()
    ensures forall i :: 0 <= i < |got| ==> got[i] != []
    ensures if err.None? then |got| == |sizes| && Flat(got) <= old(reader.Plain())
            else err.value == old(reader.End()) && Flat(got) == old(reader.Plain())
    ensures fresh(reader.cr.pool.made - old(reader.cr.pool.made)) && old(reader.cr.pool.made) <= reader.cr.pool.made
    ensures forall b :: b in reader.cr.pool.free ==>
              b in old(reader.cr.pool.free) + old(reader.cr.payload.Held()) || fresh(b)
  {
    hide Plaintext, FinalErr, Flat, Decode, Supported, LawfulAead, NoneEmpty;
    hide ChunkReader.Valid, ChunkReader.State, ReadConverter.Valid, ReadConverter.Plain;
    hide ReadConverter.End, ReadConverter.NoneEmptyAhead, ReadConverter.Ready;
    ghost var all, end := reader.Plain(), reader.End();
    got, err := [], None;
    FlatNone();
    assert all == [] + all;
    var i := 0;
    while i < |sizes| && err.None?
      invariant i <= |sizes| && reader.Valid()
      invariant fresh({reader.cr.counter, reader.cr.payloadSizeBuf}
                      - {old(reader.cr.counter), old(reader.cr.payloadSizeBuf)})
      invariant fresh(reader.cr.pool.made - old(reader.cr.pool.made)) && old(reader.cr.pool.made) <= reader.cr.pool.made
      invariant forall b :: b in reader.cr.pool.free ==>
                  b in old(reader.cr.pool.free) + old(reader.cr.payload.Held()) || fresh(b)
      invariant forall b :: b in reader.cr.payload.Held() ==>
                  b in old(reader.cr.pool.free) + old(reader.cr.payload.Held()) || fresh(b)
      invariant forall j :: 0 <= j < |got| ==> got[j] != []
      invariant if err.None? then |got| == i && reader.NoneEmptyAhead() && reader.End() == end
                                  && all == Flat(got) + reader.Plain()
                else err.value == end && Flat(got) == all
    {
      var n, data;
      n, err, data := ReadOnce(reader, sizes[i]);
      if err.None? {
        FlatSnoc(got, data);
        got := got + [data];
      }
      i := i + 1;
    }
  }

  /**
   * Reads what w has put on the wire into buffers of any nonzero sizes: every
   * read without an error delivers something, and together they deliver the
   * accepted bytes, less the pending ones, in order.
   */
  method ReadInSteps(w: Writer, pieces: seq<Bytes>, eager: bool, pool: Pool, sizes: seq<nat>)
    returns (got: seq<Bytes>, err: Option<Err>)
    requires w.Valid() && Intact(w) && Flat(pieces) == w.sink.received
    requires pool.Valid() && pool.len == READ_BUF_SIZE && forall i :: 0 <= i < |sizes| ==> sizes[i] > 0
    modifies pool`slices, pool`free, pool`made, pool.free
    ensures pool.Grown()
    ensures forall i :: 0 <= i < |got| ==> got[i] != []
    ensures err.None? ==> |got| == |sizes| && Flat(got) <= old(w.accepted)
    ensures err.Some? ==> err == Some(Eof) && Flat(got) + old(w.queue) == old(w.accepted)
  {
    hide Plaintext, FinalErr, Flat, Decode, NoWrap, Supported, LawfulAead, Pool.Valid, Writer.Valid;
    hide ChunkReader.Valid, NoneEmpty, Intact;
    ReceivedDecodes(w);
    var src := new Source(pieces, Eof, eager);
    var reader := new ReadConverter(src, w.cipher, pool);
    got, err := ReadSizes(reader, sizes);
    PoolIsValid(reader);
  }

  /**
   * A valid stream cut at any byte: the destination receives exactly the
   * payloads of the n complete chunks. A source that fails is reported with its
   * own error; if it ends, the result is nil if and only if the cut is at 0,
   * right after the salt, or at the end of a chunk.
   */
  method ReceiveCut(c: Cipher, ghost salt: Bytes, ghost chunks: seq<Bytes>, ghost cut: nat,
      pieces: seq<Bytes>, end: SourceErr, eager: bool, pool: Pool, dst: Sink)
    returns (err: Option<Err>, ghost n: nat)
    requires |salt| == c.saltSize && ValidChunks(chunks) && NoWrap(c.newAead(salt), |chunks|)
    requires cut <= |Wire(c.newAead(salt), salt, chunks)|
    requires Flat(pieces) == Wire(c.newAead(salt), salt, chunks)[..cut]
    requires pool.Valid() && pool.len == READ_BUF_SIZE && dst.Valid()
    modifies pool`slices, pool`free, pool`made, pool.free, dst
    ensures pool.Grown() && dst.Valid()
    ensures n <= |chunks| && (cut >= |salt| ==> Boundary(c.newAead(salt), |salt|, chunks, n) <= cut)
    ensures n < |chunks| ==> cut < Boundary(c.newAead(salt), |salt|, chunks, n + 1)
    ensures dst.failures == old(dst.failures) ==>
              && dst.received == old(dst.received) + Flat(chunks[..n])
              && err == if end != Eof then Some(end)
                        else if cut == 0 || cut == Boundary(c.newAead(salt), |salt|, chunks, n) then None
                        else Some(UnexpectedEof)
  {
    hide Decode, Wire, Flat, Boundary, NoWrap, Supported, ValidChunks, Pool.Valid;
    ghost var (out, last) := Decode(c, Fresh(Flat(pieces)), end);
    Truncation(c, salt, chunks, cut, end, out, last);
    n := |out|;
    err := DecryptTo(pieces, end, eager, c, pool, dst);
  }

  /**
   * A writer's stream in which one block has been replaced by bytes of the same
   * length that do not open: exactly the chunks before it are delivered, and
   * the result is the error of authentication.
   */
  method ReceiveTampered(c: Cipher, ghost salt: Bytes, ghost chunks: seq<Bytes>, ghost i: nat, ghost second: bool,
      ghost forged: Bytes, pieces: seq<Bytes>, end: SourceErr, eager: bool, pool: Pool, dst: Sink)
    returns (err: Option<Err>)
    requires |salt| == c.saltSize && ValidChunks(chunks) && NoWrap(c.newAead(salt), |chunks|) && i < |chunks|
    requires |forged| == BlockSize(c.newAead(salt), chunks, i, second)
    requires c.newAead(salt).open(BlockNonce(c.newAead(salt), if second then 2 * i + 1 else 2 * i), forged).None?
    requires var wire, p := Wire(c.newAead(salt), salt, chunks), BlockStart(c.newAead(salt), |salt|, chunks, i, second);
      p + |forged| <= |wire| ==> Flat(pieces) == wire[..p] + (forged + wire[p + |forged|..])
    requires pool.Valid() && pool.len == READ_BUF_SIZE && dst.Valid()
    modifies pool`slices, pool`free, pool`made, pool.free, dst
    ensures pool.Grown() && dst.Valid()
    ensures dst.failures == old(dst.failures) ==>
              dst.received == old(dst.received) + Flat(chunks[..i]) && err == Some(Decrypt)
    // And nothing else, even if the destination fails.
    ensures old(dst.received) <= dst.received <= old(dst.received) + Flat(chunks[..i])
  {
    hide Decode, Wire, Flat, Boundary, BlockStart, BlockSize, NoWrap, Supported, ValidChunks, Pool.Valid;
    Tampering(c, salt, chunks, i, second, forged, end);
    err := DecryptTo(pieces, end, eager, c, pool, dst);
  }
}
