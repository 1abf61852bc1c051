/**
 * One TCP connection from its first byte to the target: the key search, the
 * replay defence, the target address and the stream reader put together.
 */
module Connection {
  import opened ByteSeqs
  import opened CipherList
  import opened Crypto
  import opened Io
  import opened StreamFormat

  import Handshake
  import KeySearch
  import Packet
  import Replay
  import ServerSalt
  import SharedPool
  import SlicePool
  import StreamReader
  import StreamSession

  type Reader = StreamReader.ReadConverter

  /** `io.ReadFull` on a stream reader, into n bytes. */
  method ReadExactly(r: Reader, n: nat) returns (data: Bytes, err: Option<Err>)
    requires r.Valid()
    modifies r, r.cr, r.cr.src, r.cr.counter, r.cr.payloadSizeBuf, r.cr.payload
    modifies r.cr.pool`free, r.cr.pool`made, r.cr.pool.free, r.cr.payload.Held()
    ensures r.Valid()
    ensures err.None? <==> n <= |old(r.Plain())|
    ensures err.None? ==>
              |data| == n && old(r.Plain()) == data + r.Plain() && r.End() == old(r.End())
    ensures err.Some? ==> err.value == ReadError(|old(r.Plain())|, old(r.End()))
    ensures fresh({r.cr.counter, r.cr.payloadSizeBuf} - {old(r.cr.counter), old(r.cr.payloadSizeBuf)})
    ensures fresh(r.cr.pool.made - old(r.cr.pool.made)) && old(r.cr.pool.made) <= r.cr.pool.made
    ensures forall b :: b in r.cr.pool.free ==> b in old(r.cr.pool.free) + old(r.cr.payload.Held()) || fresh(b)
    ensures forall b :: b in r.cr.payload.Held() ==> b in old(r.cr.pool.free) + old(r.cr.payload.Held()) || fresh(b)
  {
    hide Plaintext, FinalErr, Decode, Supported, LawfulAead, StreamReader.ChunkReader.Valid;
    hide StreamReader.ReadConverter.Valid, StreamReader.ReadConverter.Plain, StreamReader.ReadConverter.End;
    hide StreamReader.ReadConverter.Ready;
    ghost var all, end := r.Plain(), r.End();
    data, err := [], None;
    assert all == [] + all;
    while |data| < n
      invariant err.None? && |data| <= n && r.Valid() && all == data + r.Plain() && r.End() == end
      invariant fresh({r.cr.counter, r.cr.payloadSizeBuf} - {old(r.cr.counter), old(r.cr.payloadSizeBuf)})
      invariant fresh(r.cr.pool.made - old(r.cr.pool.made)) && old(r.cr.pool.made) <= r.cr.pool.made
      invariant forall b :: b in r.cr.pool.free ==> b in old(r.cr.pool.free) + old(r.cr.payload.Held()) || fresh(b)
      invariant forall b :: b in r.cr.payload.Held() ==>
                  b in old(r.cr.pool.free) + old(r.cr.payload.Held()) || fresh(b)
      decreases n - |data|, |r.cr.src.Rest()|
    {
      ghost var rest := r.Plain();
      var m, more;
      m, err, more := StreamSession.ReadOnce(r, n - |data|);
      if err.Some? {
        assert rest == [] && |all| == |data|;
        err := Some(ReadError(|data|, err.value));
        return;
      }
      data := data + more;
    }
  }

  /**
   * Reads the target address (section 5 of RFC 1928) from the beginning of the
   * stream; `None` if the type is unknown or the stream ends too early.
   */
  method ReadAddr(r: Reader) returns (addr: Option<Bytes>)
    requires r.Valid()
    modifies r, r.cr, r.cr.src, r.cr.counter, r.cr.payloadSizeBuf, r.cr.payload
    modifies r.cr.pool`free, r.cr.pool`made, r.cr.pool.free, r.cr.payload.Held()
    ensures r.Valid() && addr == Packet.SplitAddr(old(r.Plain()))
    ensures addr.Some? ==> r.Plain() == old(r.Plain())[|addr.value|..] && r.End() == old(r.End())
    ensures fresh({r.cr.counter, r.cr.payloadSizeBuf} - {old(r.cr.counter), old(r.cr.payloadSizeBuf)})
    ensures fresh(r.cr.pool.made - old(r.cr.pool.made)) && old(r.cr.pool.made) <= r.cr.pool.made
    ensures forall b :: b in r.cr.pool.free ==> b in old(r.cr.pool.free) + old(r.cr.payload.Held()) || fresh(b)
    ensures forall b :: b in r.cr.payload.Held() ==> b in old(r.cr.pool.free) + old(r.cr.payload.Held()) || fresh(b)
  {
    hide Plaintext, FinalErr, Decode, Supported, LawfulAead, StreamReader.ChunkReader.Valid;
    hide StreamReader.ReadConverter.Valid, StreamReader.ReadConverter.Plain, StreamReader.ReadConverter.End;
    hide StreamReader.ReadConverter.Ready;
    ghost var all := r.Plain();
    var head, err := ReadExactly(r, 1);
    if err.Some? {
      return None;
    }
    var more;
    if head[0] == Packet.ATYP_DOMAIN {
      more, err := ReadExactly(r, 1);
      if err.Some? {
        return None;
      }
      head := head + more;
      more, err := ReadExactly(r, ToInt(head[1]) + 2);
    } else if head[0] == Packet.ATYP_IPV4 {
      more, err := ReadExactly(r, 4 + 2);
    } else if head[0] == Packet.ATYP_IPV6 {
      more, err := ReadExactly(r, 16 + 2);
    } else {
      return None;
    }
    if err.Some? {
      return None;
    }
    assert all == (head + more) + r.Plain();
    return Some(head + more);
  }

  /** What becomes of a connection. */
  datatype Outcome =
    | Refused(status: Handshake.Status)
    | NoAddress
    | NotDialled(addr: Bytes)
    | Relayed(addr: Bytes, err: Option<Err>)

  /**
   * What an accepted connection with this plaintext comes to: the address is
   * its beginning, and the target gets exactly what follows, or, if the target
   * fails, a prefix of that. If it cannot be dialled, it gets nothing.
   */
  ghost predicate Handled(r: Outcome, plaintext: Bytes, end: Err, canDial: Bytes -> bool,
      before: Bytes, after: Bytes, failed: bool)
  {
    match Packet.SplitAddr(plaintext)
    case None => r == NoAddress && after == before
    case Some(a) =>
      if !canDial(a) then r == NotDialled(a) && after == before
      else
        && r.Relayed? && r.addr == a
        && before <= after <= before + plaintext[|a|..]
        && if failed then r.err == Some(SinkFailed)
           else after == before + plaintext[|a|..] && r.err == if end == Eof then None else Some(end)
  }

  /** The part that follows an accepted handshake: reads the address, dials, and relays the rest. */
  method Serve(src: Source, c: Cipher, pool: SlicePool.Pool, target: Sink, canDial: Bytes -> bool) returns (r: Outcome)
    requires pool.Valid() && pool.len == StreamReader.READ_BUF_SIZE && target.Valid()
    modifies src, pool`slices, pool`free, pool`made, pool.free, target
    ensures pool.Grown() && target.Valid()
    ensures var s := Fresh(old(src.Rest()));
      Handled(r, Plaintext(c, s, src.end), FinalErr(c, s, src.end), canDial,
              old(target.received), target.received, target.failures != old(target.failures))
    ensures !r.Refused?
  {
    hide Plaintext, FinalErr, Decode, Supported, LawfulAead, Packet.SplitAddr, SlicePool.Pool.Valid;
    hide StreamReader.ChunkReader.State, ValidState, Flat;
    hide StreamReader.ChunkReader.Valid, StreamReader.ReadConverter.Valid, StreamReader.ReadConverter.Ready;
    hide StreamReader.ReadConverter.Leftover, StreamReader.ReadConverter.Plain, StreamReader.ReadConverter.End;
    var reader := new StreamReader.ReadConverter(src, c, pool);
    StreamSession.NewReader(reader);
    var addr := ReadAddr(reader);
    r := NoAddress;
    if addr.Some? {
      r := NotDialled(addr.value);
      if canDial(addr.value) {
        var n, err;
        ghost var sent;
        ghost var before, rest := target.received, reader.Plain();
        n, err, sent := reader.WriteTo(target);
        StreamSession.PrefixesOf(before, sent, rest);
        r := Relayed(addr.value, err);
      }
    }
    StreamSession.PoolIsValid(reader);
  }

  /** Serving one connection leaves all readers of the same pool as they are. */
  method ServeAmong(rs: seq<Reader>, src: Source, c: Cipher, pool: SlicePool.Pool, target: Sink, canDial: Bytes -> bool)
    returns (r: Outcome)
    requires SharedPool.AllApart(pool, rs) && target.Valid() && forall j :: 0 <= j < |rs| ==> rs[j].cr.src != src
    modifies src, pool`slices, pool`free, pool`made, pool.free, target
    ensures SharedPool.AllApart(pool, rs) && pool.Grown() && target.Valid()
    ensures forall j :: 0 <= j < |rs| ==> rs[j].Plain() == old(rs[j].Plain()) && rs[j].End() == old(rs[j].End())
    ensures var s := Fresh(old(src.Rest()));
      Handled(r, Plaintext(c, s, src.end), FinalErr(c, s, src.end), canDial,
              old(target.received), target.received, target.failures != old(target.failures))
  {
    hide Plaintext, FinalErr, Handled, Supported, SlicePool.Pool.Valid, StreamReader.ReadConverter.Valid;
    hide StreamReader.ReadConverter.Ready;
    hide StreamReader.ReadConverter.Leftover, StreamReader.ReadConverter.Plain, StreamReader.ReadConverter.End;
    forall j | 0 <= j < |rs| {
      SharedPool.Separate(pool, rs[j], rs[j]);
    }
    r := Serve(src, c, pool, target, canDial);
    forall j | 0 <= j < |rs| ensures rs[j].Valid() {
      SharedPool.ValidAgain(rs[j]);
    }
  }

  /**
   * Handles one connection. Meanwhile other threads may do anything to the list
   * of keys, and `others` are the handshakes that they add to the replay cache.
   */
  method HandleConnection(src: Source, clientIP: Option<Ip>, keys: KeyList, meanwhile: seq<Event<CipherEntry>>,
      cache: Replay.ReplayCache, others: seq<Replay.Hash>, pool: SlicePool.Pool, target: Sink, canDial: Bytes -> bool)
    returns (r: Outcome, ghost entry: CipherEntry?, ghost order: seq<CipherEntry>)
    requires cache.Valid() && pool.Valid() && pool.len == StreamReader.READ_BUF_SIZE && target.Valid()
    modifies src, keys, keys.list, Marked(meanwhile), cache
    modifies pool`slices, pool`free, pool`made, pool.free, target
    ensures pool.Grown() && target.Valid()
    ensures cache.Valid() && multiset(order) == multiset(old(keys.list))
    ensures multiset(keys.list) == multiset(Configured(old(keys.list), meanwhile))
    ensures var found := Handshake.Found(order, old(src.Rest()));
      var log := Replay.InsertedAll(old(cache.log), cache.capacity, others);
      var status := Handshake.Classify(log, cache.capacity, found);
      && cache.log == Handshake.LogAfter(log, cache.capacity, found)
      && (if status.Accepted? then !r.Refused? else r == Refused(status))
    // In terms of the keys, the mark and the memory alone.
    ensures Handshake.DecidedBy(if r.Refused? then r.status else Handshake.Accepted, entry, old(keys.list),
                                old(src.Rest()),
                                Replay.InsertedAll(old(cache.log), cache.capacity, others), cache.capacity)
    ensures r.Refused? ==> target.received == old(target.received) && target.failures == old(target.failures)
    ensures !r.Refused? ==>
              && entry != null && entry in order && |old(src.Rest())| >= KeySearch.KEY_FINDING_BYTES
              && KeySearch.Authenticates(entry.cipher, old(src.Rest())[..KeySearch.KEY_FINDING_BYTES])
              && var s := Fresh(old(src.Rest()));
              Handled(r, Plaintext(entry.cipher, s, src.end), FinalErr(entry.cipher, s, src.end), canDial,
                      old(target.received), target.received, target.failures != old(target.failures))
  {
    hide Handshake.Found, Handshake.Classify, Handshake.LogAfter, KeySearch.Authenticates, Handled;
    hide Plaintext, FinalErr, SlicePool.Pool.Valid, Supported, Replay.InsertedAll, Handshake.DecidedBy;
    hide Configured, Marked, LawfulAead, Replay.ReplayCache.Valid, ValidState;
    var status, e, reader;
    status, e, reader, order := Handshake.Decide(src, clientIP, keys, meanwhile, cache, others);
    entry := e;
    if !status.Accepted? {
      return Refused(status), entry, order;
    }
    r := Serve(reader, e.cipher, pool, target, canDial);
  }

  /**
   * The whole service for a client: if its key is listed and no other key opens
   * its stream, and if its salt is neither marked nor remembered, the target
   * it names receives exactly the payload that it encrypted.
   */
  method ServeClient(src: Source, clientIP: Option<Ip>, keys: KeyList, meanwhile: seq<Event<CipherEntry>>,
      cache: Replay.ReplayCache, others: seq<Replay.Hash>, pool: SlicePool.Pool, target: Sink, canDial: Bytes -> bool,
      ghost client: CipherEntry, ghost salt: Bytes, ghost chunks: seq<Bytes>, ghost addr: Bytes, ghost payload: Bytes)
    returns (r: Outcome)
    requires cache.Valid() && pool.Valid() && pool.len == StreamReader.READ_BUF_SIZE && target.Valid()
    requires client in keys.list && |salt| == client.cipher.saltSize
    requires chunks != [] && ValidChunks(chunks) && NoWrap(client.cipher.newAead(salt), |chunks|)
    requires Flat(chunks) == addr + payload && Packet.IsAddr(addr) && canDial(addr)
    requires src.Rest() == Wire(client.cipher.newAead(salt), salt, chunks) && src.end == Eof
    requires forall x :: x in keys.list && KeySearch.OpensStream(x.cipher, src.Rest()) ==> x == client
    requires !ServerSalt.EndsInMark(client.saltGenerator, salt)
    requires cache.capacity == 0
             || Replay.HashOf(client.id, salt)
                !in Replay.Window(Replay.InsertedAll(cache.log, cache.capacity, others), cache.capacity)
    modifies src, keys, keys.list, Marked(meanwhile), cache
    modifies pool`slices, pool`free, pool`made, pool.free, target
    ensures cache.Valid() && pool.Grown() && target.Valid()
    ensures r.Relayed? && r.addr == addr
    ensures target.failures == old(target.failures) || target.NeverFails() ==>
              r.err.None? && target.received == old(target.received) + payload
    ensures cache.log == Replay.Inserted(Replay.InsertedAll(old(cache.log), cache.capacity, others), cache.capacity,
                                         Replay.HashOf(client.id, salt))
  {
    hide Wire, NoWrap, ServerSalt.IsServerSalt, Replay.Inserted, Replay.InsertedAll, Replay.HashOf, Replay.Window;
    hide KeySearch.Authenticates, SlicePool.Pool.Valid, SlicePool.Pool.Grown, Supported, Flat, Handshake.FoundIn;
    hide Decode, Packet.SplitAddr, KeySearch.OpensStream, ServerSalt.EndsInMark;
    ghost var listed := keys.list;
    forall x | x in listed
      ensures |src.Rest()| >= KeySearch.KEY_FINDING_BYTES ==>
                (KeySearch.Authenticates(x.cipher, src.Rest()[..KeySearch.KEY_FINDING_BYTES])
                 <==> KeySearch.OpensStream(x.cipher, src.Rest()))
    {
      KeySearch.AuthenticatesIffOpens(x.cipher, src.Rest());
    }
    ServerSalt.RecognisedByItsMark(client.saltGenerator, salt);
    if target.NeverFails() {
      target.NoFailures();
    }
    Packet.AddrIsPrefixFree(addr, payload);
    ghost var entry, order;
    r, entry, order := HandleConnection(src, clientIP, keys, meanwhile, cache, others, pool, target, canDial);
    assert forall x :: x in order ==> x in multiset(listed);
    assert client in multiset(order);
    Handshake.OwnStreamIsFound(client, order, salt, chunks);
    RoundTrip(client.cipher, salt, chunks, Eof);
    if target.NeverFails() {
      target.NoFailures();
    }
  }
}
