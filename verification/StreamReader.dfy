/**
 * The decrypting reader: chunk by chunk into a pooled buffer, then on to the
 * caller in whatever pieces the caller asks for. Both layers are proved
 * against `StreamFormat.ReadChunk` and `StreamFormat.Decode`.
 */
module StreamReader {
  import opened ByteSeqs
  import opened Crypto
  import opened Format = StreamFormat
  import opened Io
  import opened SlicePool

  /** The largest buffer needed: a payload of maximal length and its tag. */
  const READ_BUF_SIZE: nat := MAX_PAYLOAD + TAG_SIZE

  class ChunkReader {
    const src: Source
    const cipher: Cipher
    const pool: Pool
    const payload: LazySlice

    var aead: Option<Aead>
    var counter: array<byte>
    var payloadSizeBuf: array<byte>
    ghost var block: nat

    ghost predicate Valid(): (valid: bool)
      reads this, counter, pool, pool.slices
      ensures valid ==> KeyReady()
    {
      && pool.Valid() && payload in pool.slices && payload.pool == pool && pool.len == READ_BUF_SIZE
      && counter !in pool.made && payloadSizeBuf !in pool.made && counter != payloadSizeBuf
      && (aead.None? ==> payload.slice == null) && KeyReady()
    }

    /** The session key, if there is one yet, with the counter of the next block. */
    ghost predicate KeyReady()
      reads this, counter
    {
      aead.Some? ==>
        && LawfulAead(aead.value) && aead.value.overhead == TAG_SIZE
        && counter.Length == aead.value.nonceSize
        && counter[..] == BlockNonce(aead.value, block)
        && payloadSizeBuf.Length == 2 + TAG_SIZE
    }

    /** What is left to read, as the reference definition sees it. */
    ghost function State(): ReaderState
      reads this`aead, this`block, src
    {
      if aead.None? then Fresh(src.Rest()) else Keyed(aead.value, block, src.Rest())
    }

    constructor (src: Source, cipher: Cipher, pool: Pool)
      requires pool.Valid() && pool.len == READ_BUF_SIZE
      modifies pool`slices
      ensures Valid() && fresh(payload) && fresh(counter) && fresh(payloadSizeBuf)
      ensures this.src == src && this.cipher == cipher && this.pool == pool
      ensures State() == Fresh(src.Rest()) && payload.slice == null
      ensures pool.free == old(pool.free) && pool.made == old(pool.made)
      ensures pool.slices == old(pool.slices) + {payload}
    {
      this.src, this.cipher, this.pool := src, cipher, pool;
      aead, block := None, 0;
      counter, payloadSizeBuf := new byte[0], new byte[0];
      var p := new LazySlice(pool);
      payload := p;
    }

    /** Derives the session key and allocates counter and length buffer. */
    method SetKey(salt: Bytes)
      requires |salt| == cipher.saltSize
      modifies this`aead, this`block, this`counter, this`payloadSizeBuf
      ensures aead == Some(cipher.newAead(salt)) && block == 0
      ensures fresh(counter) && fresh(payloadSizeBuf) && counter != payloadSizeBuf
      ensures LawfulAead(aead.value) && aead.value.overhead == TAG_SIZE
      ensures counter.Length == aead.value.nonceSize && counter[..] == BlockNonce(aead.value, 0)
      ensures payloadSizeBuf.Length == 2 + TAG_SIZE
    {
      hide LawfulAead;
      var a := cipher.newAead(salt);
      aead, block := Some(a), 0;
      counter := new byte[a.nonceSize](_ => 0);
      payloadSizeBuf := new byte[2 + a.overhead](_ => 0);
      ZeroCounter(counter[..]);
    }

    /** Reads the salt and derives the session key, once. */
    method Init() returns (err: Option<Err>)
      requires Valid()
      modifies this, src
      ensures Valid() && (err.Some? ==> payload.slice == null)
      ensures (err, State()) == Format.Init(cipher, old(State()), src.end)
      ensures fresh({counter, payloadSizeBuf} - {old(counter), old(payloadSizeBuf)})
    {
      hide LawfulAead, BlockNonce, Supported;
      if aead.None? {
        var salt := new byte[cipher.saltSize](_ => 0);
        err := ReadFull(src, salt, cipher.saltSize);
        if err.None? {
          assert salt[..] == salt[..cipher.saltSize];
          SetKey(salt[..]);
        }
      } else {
        err := None;
      }
    }

    /** Reads one sealed block that exactly fills buf[..n], and opens it in place. */
    method ReadMessage(buf: array<byte>, n: nat) returns (err: Option<Err>)
      requires aead.Some? && LawfulAead(aead.value)
      requires counter.Length == aead.value.nonceSize && counter[..] == BlockNonce(aead.value, block)
      requires buf != counter && aead.value.overhead <= n <= buf.Length
      modifies this`block, counter, buf, src
      ensures counter[..] == BlockNonce(aead.value, block)
      ensures var (m, k, rest) := Format.ReadMessage(aead.value, old(block), old(src.Rest()), n, src.end);
        && block == k && src.Rest() == rest
        && match m
           case Failed(e) => err == Some(e)
           case Opened(p) => err.None? && |p| == n - aead.value.overhead && buf[..n - aead.value.overhead] == p
      // Nothing is handed on but what the block opens to.
      ensures err.None? <==>
                |old(src.Rest())| >= n && aead.value.open(old(counter[..]), old(src.Rest())[..n]).Some?
      ensures err.None? ==>
                aead.value.open(old(counter[..]), old(src.Rest())[..n]) == Some(buf[..n - aead.value.overhead])
      ensures err.Some? && |old(src.Rest())| >= n ==> err == Some(Decrypt)
    {
      hide LawfulAead, Nonce, Succ;
      err := ReadFull(src, buf, n);
      if err.Some? {
        return;
      }
      var plain := aead.value.open(counter[..], buf[..n]);
      SuccNonce(aead.value.nonceSize, block);
      ghost var nonce, sealed := counter[..], buf[..n];
      Increment(counter);
      block := block + 1;
      if plain.None? {
        // A failed in-place opening wipes the plaintext region.
        Store(buf, 0, seq(n - aead.value.overhead, _ => 0));
        return Some(Decrypt);
      }
      OpenedLength(aead.value, nonce, sealed);
      Store(buf, 0, plain.value);
    }

    /** The result of a call, compared with the reference step; no error leaves a buffer acquired. */
    ghost predicate Delivered(m: Message, n: nat, err: Option<Err>)
      reads payload, payload.Held()
    {
      match m
      case Failed(e) => err == Some(e) && payload.slice == null
      case Opened(p) =>
        err.None? && payload.slice != null && n == |p| <= payload.slice.Length && payload.slice[..n] == p
    }

    /** Reads the length block. */
    method ReadLength() returns (size: nat, err: Option<Err>)
      requires Valid() && aead.Some?
      modifies this`block, src, counter, payloadSizeBuf
      ensures Valid() && size <= MAX_PAYLOAD
      ensures var (m, k, rest) := Format.ReadMessage(aead.value, old(block), old(src.Rest()), 2 + TAG_SIZE, src.end);
        && block == k && src.Rest() == rest
        && match m
           case Failed(e) => err == Some(e)
           case Opened(p) => err.None? && |p| == 2 && size == MaskLength(GetUint16(p))
    {
      hide LawfulAead, BlockNonce, Supported;
      err := ReadMessage(payloadSizeBuf, payloadSizeBuf.Length);
      size := if err.None? then MaskLength(GetUint16(payloadSizeBuf[..2])) else 0;
    }

    /** Reads a payload block of `size` bytes into a buffer from the pool. */
    method ReadPayload(size: nat) returns (err: Option<Err>)
      requires Valid() && aead.Some? && payload.slice == null && size <= MAX_PAYLOAD
      modifies this`block, src, counter, payload, pool`free, pool`made, pool.free
      ensures Valid()
      ensures var (m, k, rest) := Format.ReadMessage(aead.value, old(block), old(src.Rest()), size + TAG_SIZE, src.end);
        && block == k && src.Rest() == rest
        && Delivered(if m == Failed(Eof) then Failed(UnexpectedEof) else m, size, err)
      ensures fresh(pool.made - old(pool.made)) && old(pool.made) <= pool.made
      ensures forall b :: b in pool.free + payload.Held() ==> b in old(pool.free) || fresh(b)
    {
      hide LawfulAead, BlockNonce, Supported;
      var buf := payload.Acquire();
      assert buf.Length >= size + TAG_SIZE;  // so the short-buffer error cannot occur
      err := ReadMessage(buf, size + TAG_SIZE);
      if err.Some? {
        if err == Some(Eof) {
          err := Some(UnexpectedEof);  // an end is not expected inside a chunk
        }
        payload.Release();
      }
    }

    /** Reads the length block, then the payload block. */
    method NextChunk() returns (n: nat, err: Option<Err>)
      requires Valid() && aead.Some? && payload.slice == null
      modifies this`block, src, counter, payloadSizeBuf, payload, pool`free, pool`made, pool.free
      ensures Valid()
      ensures var (m, s) := Format.NextChunk(old(State()), src.end);
        State() == s && Delivered(m, n, err)
      ensures fresh(pool.made - old(pool.made)) && old(pool.made) <= pool.made
      ensures forall b :: b in pool.free + payload.Held() ==> b in old(pool.free) || fresh(b)
    {
      hide LawfulAead, BlockNonce, Supported, Format.ReadMessage;
      n, err := ReadLength();
      if err.None? {
        err := ReadPayload(n);
      }
    }

    /** Returns the next chunk as the first n bytes of the acquired buffer. */
    method ReadChunk() returns (n: nat, err: Option<Err>)
      requires Valid()
      modifies this, src, counter, payloadSizeBuf, payload, pool`free, pool`made, pool.free, payload.Held()
      ensures Valid()
      ensures var (m, s) := Format.ReadChunk(cipher, old(State()), src.end);
        State() == s && Delivered(m, n, err)
      ensures fresh({counter, payloadSizeBuf} - {old(counter), old(payloadSizeBuf)})
      ensures fresh(pool.made - old(pool.made)) && old(pool.made) <= pool.made
      ensures forall b :: b in pool.free + payload.Held() ==>
                b in old(pool.free) + old(payload.Held()) || fresh(b)
    {
      hide LawfulAead, BlockNonce, Supported;
      err := Init();
      if err.Some? {
        return 0, err;
      }
      payload.Release();
      n, err := NextChunk();
    }
  }

  class ReadConverter {
    const cr: ChunkReader
    /** Payload bytes not yet handed on: leftBuf[from..to]. */
    var leftBuf: array?<byte>
    var from: nat
    var to: nat

    ghost predicate Valid(): (valid: bool)
      reads this, cr, cr.counter, cr.pool, cr.pool.slices, cr.payload
      ensures valid ==> Ready()
    {
      cr.Valid() && Ready()
    }

    /** What concerns this reader alone, and not the pool. */
    ghost predicate Ready()
      reads this, cr, cr.counter, cr.payload
    {
      && cr.KeyReady() && from <= to
      && (from < to ==> leftBuf != null && leftBuf == cr.payload.slice && to <= leftBuf.Length)
    }

    ghost function Leftover(): Bytes
      requires Ready()
      reads this, cr, cr.counter, cr.payload, if from < to then {leftBuf} else {}
    {
      if from == to then [] else leftBuf[from..to]
    }

    /** All plaintext still to be delivered, and the error that follows it. */
    ghost function Plain(): Bytes
      requires Ready()
      reads this, cr, cr.counter, cr.payload, cr.src, if from < to then {leftBuf} else {}
    {
      Leftover() + Plaintext(cr.cipher, cr.State(), cr.src.end)
    }

    /** Is the next chunk of the stream one without payload? */
    ghost predicate NextIsEmpty()
      requires Ready()
      reads this, cr, cr.counter, cr.payload, cr.src
    {
      Format.ReadChunk(cr.cipher, cr.State(), cr.src.end).0 == Opened([])
    }

    /** Are all chunks still to come nonempty? */
    ghost predicate NoneEmptyAhead()
      requires Ready()
      reads this, cr, cr.counter, cr.payload, cr.src
    {
      NoneEmpty(Decode(cr.cipher, cr.State(), cr.src.end).0)
    }

    ghost function End(): Err
      requires Ready()
      reads this, cr, cr.counter, cr.payload, cr.src
    {
      FinalErr(cr.cipher, cr.State(), cr.src.end)
    }

    constructor (src: Source, cipher: Cipher, pool: Pool)
      requires pool.Valid() && pool.len == READ_BUF_SIZE
      modifies pool`slices
      ensures Valid() && fresh(cr) && fresh(cr.payload) && fresh(cr.counter) && fresh(cr.payloadSizeBuf)
      ensures cr.src == src && cr.cipher == cipher && cr.pool == pool
      ensures Leftover() == [] && cr.State() == Fresh(src.Rest()) && cr.payload.slice == null
      ensures pool.free == old(pool.free) && pool.made == old(pool.made)
      ensures pool.slices == old(pool.slices) + {cr.payload}
    {
      var c := new ChunkReader(src, cipher, pool);
      cr := c;
      leftBuf, from, to := null, 0, 0;
    }

    /** Waits for the next chunk, which may be empty. */
    method FetchChunk() returns (err: Option<Err>)
      requires Valid() && from == to
      modifies this, cr, cr.src, cr.counter, cr.payloadSizeBuf, cr.payload
      modifies cr.pool`free, cr.pool`made, cr.pool.free, cr.payload.Held()
      ensures Valid()
      ensures err.None? ==> Plain() == old(Plain()) && End() == old(End())
      ensures Format.ReadChunk(cr.cipher, old(cr.State()), cr.src.end)
           == (if err.None? then Opened(Leftover()) else Failed(err.value), cr.State())
      ensures err.None? ==> |cr.src.Rest()| < old(|cr.src.Rest()|) && (from == to <==> old(NextIsEmpty()))
      ensures |cr.src.Rest()| <= old(|cr.src.Rest()|)
      ensures err.Some? ==> err.value == old(End()) && old(Plain()) == [] && cr.payload.slice == null
      ensures fresh({cr.counter, cr.payloadSizeBuf} - {old(cr.counter), old(cr.payloadSizeBuf)})
      ensures fresh(cr.pool.made - old(cr.pool.made)) && old(cr.pool.made) <= cr.pool.made
      ensures forall b :: b in cr.pool.free + cr.payload.Held() ==>
                b in old(cr.pool.free) + old(cr.payload.Held()) || fresh(b)
    {
      hide Plaintext, FinalErr, Decode, NoneEmpty, Format.ReadChunk, Supported, LawfulAead;
      hide ChunkReader.Valid, ChunkReader.State, ChunkReader.KeyReady;
      ghost var s, end := cr.State(), cr.src.end;
      StateValid();
      PlaintextStep(cr.cipher, s, end, Format.ReadChunk(cr.cipher, s, end).0, Format.ReadChunk(cr.cipher, s, end).1);
      leftBuf, from, to := null, 0, 0;
      var n;
      n, err := cr.ReadChunk();
      if err.None? {
        leftBuf, from, to := cr.payload.slice, 0, n;
      }
      StateValid();
    }

    lemma StateValid()
      requires Valid()
      ensures ValidState(cr.State()) && Supported(cr.cipher) && cr.State().bytes == cr.src.Rest()
    {
    }

    /** Waits for the next chunk if nothing is left over. */
    method EnsureLeftover() returns (err: Option<Err>)
      requires Valid()
      modifies this, cr, cr.src, cr.counter, cr.payloadSizeBuf, cr.payload
      modifies cr.pool`free, cr.pool`made, cr.pool.free, cr.payload.Held()
      ensures Valid()
      ensures err.None? ==> Plain() == old(Plain()) && End() == old(End())
      ensures err.None? && old(from == to) ==> |cr.src.Rest()| < old(|cr.src.Rest()|)
      ensures err.None? ==> (from == to <==> old(from == to) && old(NextIsEmpty()))
      ensures err.None? && old(NoneEmptyAhead()) ==> NoneEmptyAhead() && from < to
      ensures err.Some? ==>
                Format.ReadChunk(cr.cipher, old(cr.State()), cr.src.end) == (Failed(err.value), cr.State())
      ensures old(from < to) ==> err.None? && to - from == old(to - from)
      ensures |cr.src.Rest()| <= old(|cr.src.Rest()|)
      ensures err.Some? ==> err.value == old(End()) && old(Plain()) == [] && cr.payload.slice == null
      ensures fresh({cr.counter, cr.payloadSizeBuf} - {old(cr.counter), old(cr.payloadSizeBuf)})
      ensures fresh(cr.pool.made - old(cr.pool.made)) && old(cr.pool.made) <= cr.pool.made
      ensures forall b :: b in cr.pool.free + cr.payload.Held() ==>
                b in old(cr.pool.free) + old(cr.payload.Held()) || fresh(b)
    {
      hide Plaintext, FinalErr, Format.ReadChunk, Decode, Supported, LawfulAead;
      hide ChunkReader.Valid, ChunkReader.State, ChunkReader.KeyReady;
      if from < to {
        return None;
      }
      ghost var s, end := cr.State(), cr.src.end;
      StateValid();
      err := FetchChunk();
      if err.None? && NoneEmpty(Decode(cr.cipher, s, end).0) {
        NoneEmptyStep(cr.cipher, s, end, Leftover(), cr.State());
      }
    }

    /** Hands on the first n leftover bytes. */
    method TakeLeftover(n: nat) returns (data: Bytes)
      requires Valid() && n <= to - from
      modifies this`from
      ensures Valid() && to - from == old(to - from) - n
      ensures |data| == n && old(Leftover()) == data + Leftover()
      ensures old(Plain()) == data + Plain() && End() == old(End())
      ensures NoneEmptyAhead() == old(NoneEmptyAhead())
    {
      hide Plaintext, FinalErr, Decode, NoneEmpty, Supported, LawfulAead;
      hide ChunkReader.Valid, ChunkReader.State, ChunkReader.KeyReady;
      StateValid();
      ghost var left, after := Leftover(), Plaintext(cr.cipher, cr.State(), cr.src.end);
      data := if n == 0 then [] else leftBuf[from..from + n];
      from := from + n;
      assert left == data + Leftover();
      assert (data + Leftover()) + after == data + (Leftover() + after);
    }

    /** Copies as much of the leftover as fits into b. */
    method TakeInto(b: array<byte>) returns (n: nat)
      requires Valid() && b !in cr.pool.made && b != cr.counter && b != cr.payloadSizeBuf
      modifies this`from, b
      ensures Valid() && n == Min(b.Length, old(to - from)) && NoneEmptyAhead() == old(NoneEmptyAhead())
      ensures old(Plain()) == b[..n] + Plain() && End() == old(End())
    {
      hide Plaintext, FinalErr, Supported, LawfulAead, ChunkReader.State, ChunkReader.KeyReady;
      n := Min(b.Length, to - from);
      var data := TakeLeftover(n);
      Store(b, 0, data);
      assert b[..n] == data;
    }

    /** Delivers up to b.Length bytes. */
    method Read(b: array<byte>) returns (n: nat, err: Option<Err>)
      requires Valid() && b !in cr.pool.made && b != cr.counter && b != cr.payloadSizeBuf
      modifies this, cr, cr.src, cr.counter, cr.payloadSizeBuf, cr.payload, b
      modifies cr.pool`free, cr.pool`made, cr.pool.free, cr.payload.Held()
      ensures Valid() && n <= b.Length
      ensures err.None? ==> old(Plain()) == b[..n] + Plain() && End() == old(End())
      // Nothing is delivered only into an empty buffer or for an empty chunk.
      ensures err.None? && b.Length > 0 ==> (n == 0 <==> old(from == to) && old(NextIsEmpty()))
      ensures err.None? && old(NoneEmptyAhead()) ==> NoneEmptyAhead() && (b.Length > 0 ==> n > 0)
      ensures err.None? && n == 0 && b.Length > 0 ==> |cr.src.Rest()| < old(|cr.src.Rest()|)
      ensures err.Some? ==> n == 0 && err.value == old(End()) && old(Plain()) == [] && cr.payload.slice == null
      ensures err.Some? ==>
                Format.ReadChunk(cr.cipher, old(cr.State()), cr.src.end) == (Failed(err.value), cr.State())
      ensures fresh({cr.counter, cr.payloadSizeBuf} - {old(cr.counter), old(cr.payloadSizeBuf)})
      ensures fresh(cr.pool.made - old(cr.pool.made)) && old(cr.pool.made) <= cr.pool.made
      ensures forall x :: x in cr.pool.free ==> x in old(cr.pool.free) + old(cr.payload.Held()) || fresh(x)
      ensures forall x :: x in cr.payload.Held() ==> x in old(cr.pool.free) + old(cr.payload.Held()) || fresh(x)
    {
      hide Plaintext, FinalErr, Supported, LawfulAead, ChunkReader.State;
      err := EnsureLeftover();
      if err.Some? {
        return 0, err;
      }
      n := TakeInto(b);
    }

    /** One round of `WriteTo`: waits for data and writes it all to w. */
    method RelayOnce(w: Sink) returns (n: nat, err: Option<Err>, ghost data: Bytes)
      requires Valid() && w.Valid()
      modifies this, cr, cr.src, cr.counter, cr.payloadSizeBuf, cr.payload, w
      modifies cr.pool`free, cr.pool`made, cr.pool.free, cr.payload.Held()
      ensures Valid() && w.Valid() && w.received == old(w.received) + data && n == |data|
      ensures if w.failures != old(w.failures) then err == Some(SinkFailed)
              else if err.Some? then data == [] && err.value == old(End()) && old(Plain()) == []
              else if old(from == to) then |cr.src.Rest()| < old(|cr.src.Rest()|)
              else |cr.src.Rest()| <= old(|cr.src.Rest()|) && from == to
      ensures w.failures != old(w.failures) || err.None? ==>
                old(Plain()) == data + Plain() && End() == old(End())
      ensures fresh({cr.counter, cr.payloadSizeBuf} - {old(cr.counter), old(cr.payloadSizeBuf)})
      ensures fresh(cr.pool.made - old(cr.pool.made)) && old(cr.pool.made) <= cr.pool.made
      ensures forall b :: b in cr.pool.free ==> b in old(cr.pool.free) + old(cr.payload.Held()) || fresh(b)
      ensures forall b :: b in cr.payload.Held() ==> b in old(cr.pool.free) + old(cr.payload.Held()) || fresh(b)
    {
      hide Plaintext, FinalErr, Decode, NoneEmpty, Format.ReadChunk, Supported, LawfulAead;
      hide ChunkReader.State, ChunkReader.Valid;
      err := EnsureLeftover();
      if err.Some? {
        return 0, err, [];
      }
      var ok;
      n, ok := w.Write(if from < to then leftBuf[from..to] else []);
      var bytes := TakeLeftover(n);
      data := bytes;
      if !ok {
        err := Some(SinkFailed);
      }
    }

    /** Decrypts everything and writes it to w. */
    method WriteTo(w: Sink) returns (written: nat, err: Option<Err>, ghost sent: Bytes)
      requires Valid() && w.Valid()
      modifies this, cr, cr.src, cr.counter, cr.payloadSizeBuf, cr.payload, w
      modifies cr.pool`free, cr.pool`made, cr.pool.free, cr.payload.Held()
      ensures Valid() && w.Valid()
      ensures w.received == old(w.received) + sent && written == |sent|
      ensures w.failures == old(w.failures) ==>
                sent == old(Plain()) && err == if old(End()) == Eof then None else Some(old(End()))
      ensures w.failures != old(w.failures) ==>
                err == Some(SinkFailed) && old(Plain()) == sent + Plain() && End() == old(End())
      ensures fresh({cr.counter, cr.payloadSizeBuf} - {old(cr.counter), old(cr.payloadSizeBuf)})
      ensures fresh(cr.pool.made - old(cr.pool.made)) && old(cr.pool.made) <= cr.pool.made
      ensures forall b :: b in cr.pool.free ==> b in old(cr.pool.free) + old(cr.payload.Held()) || fresh(b)
      ensures forall b :: b in cr.payload.Held() ==> b in old(cr.pool.free) + old(cr.payload.Held()) || fresh(b)
    {
      hide Valid, Plain, End;
      written, sent, err := 0, [], None;
      while err.None?
        invariant Valid() && w.Valid()
        invariant w.received == old(w.received) + sent && written == |sent|
        invariant if w.failures != old(w.failures) then err == Some(SinkFailed)
                  else err.Some? ==> err.value == old(End()) && sent == old(Plain())
        invariant w.failures != old(w.failures) || err.None? ==>
                    old(Plain()) == sent + Plain() && End() == old(End())
        invariant fresh({cr.counter, cr.payloadSizeBuf} - {old(cr.counter), old(cr.payloadSizeBuf)})
        invariant fresh(cr.pool.made - old(cr.pool.made)) && old(cr.pool.made) <= cr.pool.made
        invariant forall b :: b in cr.pool.free ==> b in old(cr.pool.free) + old(cr.payload.Held()) || fresh(b)
        invariant forall b :: b in cr.payload.Held() ==> b in old(cr.pool.free) + old(cr.payload.Held()) || fresh(b)
        decreases err.None?, |cr.src.Rest()|, from != to
      {
        var n;
        ghost var data;
        n, err, data := RelayOnce(w);
        written, sent := written + n, sent + data;
      }
      if err == Some(Eof) {
        err := None;
      }
    }
  }
}
