/** Any number of readers that recycle the buffers of one pool, in any interleaving of their steps. */
module SharedPool {
  import opened ByteSeqs
  import opened Crypto
  import opened StreamFormat
  import opened Io
  import opened SlicePool
  import opened StreamReader
  import opened StreamSession

  /** Two readers that share nothing but their pool. */
  ghost predicate Apart(a: ReadConverter, b: ReadConverter)
    reads a.cr, b.cr
  {
    && a != b && a.cr != b.cr && a.cr.src != b.cr.src && a.cr.payload != b.cr.payload
    && {a.cr.counter, a.cr.payloadSizeBuf} !! {b.cr.counter, b.cr.payloadSizeBuf}
  }

  /** Readers of one pool that share nothing else. */
  ghost predicate AllApart(pool: Pool, rs: seq<ReadConverter>)
    reads pool, pool.slices, rs
    reads set r | r in rs :: r.cr, set r | r in rs :: r.cr.counter, set r | r in rs :: r.cr.payload
  {
    && pool.Valid() && pool.len == READ_BUF_SIZE
    && (forall i :: 0 <= i < |rs| ==> rs[i].cr.pool == pool && rs[i].Valid())
    && (forall i, j :: 0 <= i < j < |rs| ==> Apart(rs[i], rs[j]))
  }

  /** The next step of one reader: a read of up to `size` bytes, or one round of relaying to `dst`. */
  method Advance(r: ReadConverter, relay: bool, size: nat, dst: Sink)
    returns (data: Bytes, err: Option<Err>)
    requires r.Valid() && dst.Valid()
    modifies r, r.cr, r.cr.src, r.cr.counter, r.cr.payloadSizeBuf, r.cr.payload, dst
    modifies r.cr.pool`free, r.cr.pool`made, r.cr.pool.free, r.cr.payload.Held()
    ensures r.Valid() && dst.Valid() && dst.received == old(dst.received) + if relay then data else []
    ensures if err.None? || dst.failures != old(dst.failures)
            then old(r.Plain()) == data + r.Plain() && r.End() == old(r.End())
            else data == [] && err.value == old(r.End()) && old(r.Plain()) == []
    ensures dst.failures != old(dst.failures) ==> err == Some(SinkFailed)
    ensures fresh({r.cr.counter, r.cr.payloadSizeBuf} - {old(r.cr.counter), old(r.cr.payloadSizeBuf)})
    ensures fresh(r.cr.pool.made - old(r.cr.pool.made)) && old(r.cr.pool.made) <= r.cr.pool.made
    ensures forall b :: b in r.cr.pool.free ==> b in old(r.cr.pool.free) + old(r.cr.payload.Held()) || fresh(b)
    ensures forall b :: b in r.cr.payload.Held() ==> b in old(r.cr.pool.free) + old(r.cr.payload.Held()) || fresh(b)
  {
    hide Plaintext, FinalErr, Decode, NoneEmpty, Supported, LawfulAead, ChunkReader.Valid;
    hide ReadConverter.Valid, ReadConverter.Plain, ReadConverter.End;
    var n;
    if relay {
      var before := |dst.received|;
      ghost var sent;
      n, err, sent := r.RelayOnce(dst);
      data := dst.received[before..];
    } else {
      n, err, data := ReadOnce(r, size);
    }
  }

  /** What a reader has of its own and in its pool, besides its key and its leftover. */
  ghost predicate Borrows(q: ReadConverter, slices: set<LazySlice>, made: set<array<byte>>)
    reads q.cr, q.cr.payload
  {
    && q.cr.payload in slices && q.cr.payload.pool == q.cr.pool
    && q.cr.counter !in made && q.cr.payloadSizeBuf !in made && q.cr.counter != q.cr.payloadSizeBuf
    && (q.cr.aead.None? ==> q.cr.payload.slice == null)
  }

  /** Nothing that this reader has yet to deliver is in a free buffer or in one held by another reader. */
  lemma Separate(pool: Pool, r: ReadConverter, q: ReadConverter)
    requires r.Valid() && q.Valid() && r.cr.pool == q.cr.pool == pool
    ensures Borrows(q, pool.slices, pool.made) && pool.free <= pool.made && r.cr.payload.Held() <= pool.made
    ensures r.cr.counter !in pool.made && r.cr.payloadSizeBuf !in pool.made
    ensures q.from < q.to ==> q.leftBuf in pool.made - pool.free
    ensures q.from < q.to && (Apart(r, q) || Apart(q, r)) ==> q.leftBuf !in r.cr.payload.Held()
  {
  }

  /** A reader that is ready is valid as long as the pool is. */
  lemma ValidAgain(q: ReadConverter)
    requires q.cr.pool.Valid() && q.cr.pool.len == READ_BUF_SIZE && q.Ready()
    requires Borrows(q, q.cr.pool.slices, q.cr.pool.made)
    ensures q.Valid()
  {
  }

  /** A step of one reader leaves the others valid, and what they deliver alone. */
  method StepBeside(pool: Pool, rs: seq<ReadConverter>, i: nat, relay: bool, size: nat, dst: Sink)
    returns (data: Bytes, err: Option<Err>)
    requires AllApart(pool, rs) && i < |rs| && dst.Valid()
    modifies rs[i], rs[i].cr, rs[i].cr.src, rs[i].cr.counter, rs[i].cr.payloadSizeBuf, rs[i].cr.payload, dst
    modifies pool`free, pool`made, pool.free, rs[i].cr.payload.Held()
    ensures dst.Valid() && rs[i].Valid() && forall j :: 0 <= j < |rs| ==> rs[j].Valid()
    ensures dst.received == old(dst.received) + if relay then data else []
    ensures forall j :: 0 <= j < |rs| && j != i ==>
              rs[j].Plain() == old(rs[j].Plain()) && rs[j].End() == old(rs[j].End())
    ensures if err.None? || dst.failures != old(dst.failures)
            then old(rs[i].Plain()) == data + rs[i].Plain() && rs[i].End() == old(rs[i].End())
            else data == [] && err.value == old(rs[i].End()) && old(rs[i].Plain()) == []
    ensures dst.failures != old(dst.failures) ==> err == Some(SinkFailed)
    ensures var r := rs[i].cr; fresh({r.counter, r.payloadSizeBuf} - {old(r.counter), old(r.payloadSizeBuf)})
    ensures fresh(pool.made - old(pool.made)) && old(pool.made) <= pool.made
    ensures forall b :: b in pool.free ==> b in old(pool.free) + old(rs[i].cr.payload.Held()) || fresh(b)
    ensures forall b :: b in rs[i].cr.payload.Held() ==>
              b in old(pool.free) + old(rs[i].cr.payload.Held()) || fresh(b)
  {
    hide Plaintext, FinalErr, Decode, NoneEmpty, Supported, LawfulAead, Pool.Valid, ChunkReader.Valid;
    hide ReadConverter.Valid, ReadConverter.Ready, ReadConverter.Leftover, ReadConverter.Plain, ReadConverter.End;
    forall j | 0 <= j < |rs| && j != i {
      Separate(pool, rs[i], rs[j]);
    }
    data, err := Advance(rs[i], relay, size, dst);
    PoolIsValid(rs[i]);
    forall j | 0 <= j < |rs| && j != i
      ensures rs[j].Valid() && rs[j].Plain() == old(rs[j].Plain()) && rs[j].End() == old(rs[j].End())
    {
      ValidAgain(rs[j]);
    }
  }

  /** The same, and the readers still share nothing but the pool. */
  method Turn(pool: Pool, rs: seq<ReadConverter>, i: nat, relay: bool, size: nat, dst: Sink)
    returns (data: Bytes, err: Option<Err>)
    requires AllApart(pool, rs) && i < |rs| && dst.Valid()
    modifies rs[i], rs[i].cr, rs[i].cr.src, rs[i].cr.counter, rs[i].cr.payloadSizeBuf, rs[i].cr.payload, dst
    modifies pool`free, pool`made, pool.free, rs[i].cr.payload.Held()
    ensures AllApart(pool, rs) && dst.Valid()
    ensures dst.received == old(dst.received) + if relay then data else []
    ensures forall j :: 0 <= j < |rs| && j != i ==>
              rs[j].Plain() == old(rs[j].Plain()) && rs[j].End() == old(rs[j].End())
    ensures if err.None? || dst.failures != old(dst.failures)
            then old(rs[i].Plain()) == data + rs[i].Plain() && rs[i].End() == old(rs[i].End())
            else data == [] && err.value == old(rs[i].End()) && old(rs[i].Plain()) == []
    ensures dst.failures != old(dst.failures) ==> err == Some(SinkFailed)
    ensures var r := rs[i].cr; fresh({r.counter, r.payloadSizeBuf} - {old(r.counter), old(r.payloadSizeBuf)})
    ensures fresh(pool.made - old(pool.made)) && old(pool.made) <= pool.made
    ensures forall b :: b in pool.free ==> b in old(pool.free) + old(rs[i].cr.payload.Held()) || fresh(b)
    ensures forall b :: b in rs[i].cr.payload.Held() ==>
              b in old(pool.free) + old(rs[i].cr.payload.Held()) || fresh(b)
  {
    hide Plaintext, FinalErr, Supported, LawfulAead, Pool.Valid, ChunkReader.Valid, ReadConverter.Valid;
    hide ReadConverter.Ready, ReadConverter.Plain, ReadConverter.End;
    data, err := StepBeside(pool, rs, i, relay, size, dst);
    PoolIsValid(rs[i]);
  }

  /** One more reader, for a stream that arrives in pieces of any sizes. */
  method OpenOne(pool: Pool, rs: seq<ReadConverter>, pieces: seq<Bytes>, end: SourceErr, eager: bool, cipher: Cipher)
    returns (r: ReadConverter)
    requires AllApart(pool, rs)
    modifies pool`slices
    ensures r.Valid() && AllApart(pool, rs) && AllApart(pool, rs + [r])
    ensures r.Plain() == Plaintext(cipher, Fresh(Flat(pieces)), end)
    ensures r.End() == FinalErr(cipher, Fresh(Flat(pieces)), end)
    ensures forall j :: 0 <= j < |rs| ==>
              rs[j].Plain() == old(rs[j].Plain()) && rs[j].End() == old(rs[j].End())
    ensures fresh(Parts(r)) && fresh(r.cr.payload)
    ensures pool.slices == old(pool.slices) + {r.cr.payload}
  {
    hide Plaintext, FinalErr, Decode, NoneEmpty, Supported, LawfulAead, Flat, Pool.Valid, ChunkReader.Valid;
    hide ReadConverter.Valid, ReadConverter.Ready, ReadConverter.Leftover, ReadConverter.Plain, ReadConverter.End;
    forall j | 0 <= j < |rs| {
      Separate(pool, rs[j], rs[j]);
    }
    var src := new Source(pieces, end, eager);
    r := new ReadConverter(src, cipher, pool);
    PoolIsValid(r);
    forall j | 0 <= j < |rs| ensures rs[j].Valid() {
      ValidAgain(rs[j]);
    }
    NewReader(r);
  }

  /** What one reader alone may write to, besides the free buffers. */
  ghost function Parts(r: ReadConverter): set<object>
    reads r.cr, r.cr.payload
  {
    {r, r.cr, r.cr.src, r.cr.payload, r.cr.counter, r.cr.payloadSizeBuf} + r.cr.payload.Held()
  }

  /** All that the steps of these readers may write to. */
  ghost function Footprint(pool: Pool, rs: seq<ReadConverter>, dsts: seq<Sink>): set<object>
    reads pool`free, set r | r in rs :: r.cr, set r | r in rs :: r.cr.payload
  {
    (set d: Sink | d in dsts) + pool.free + set r, x | r in rs && x in Parts(r) :: x
  }

  /** A stream arrives at a new reader, or the reader `who` makes its next step. */
  datatype Event =
    | Open(pieces: seq<Bytes>, end: SourceErr, eager: bool, cipher: Cipher, relay: bool, plan: nat -> Option<nat>)
    | Step(who: nat, size: nat)

  /** The streams that have arrived. */
  function Opened(events: seq<Event>): (streams: seq<Event>)
    ensures forall i :: 0 <= i < |streams| ==> streams[i].Open?
  {
    if |events| == 0 then
      []
    else
      var last := events[|events| - 1];
      Opened(events[..|events| - 1]) + if last.Open? then [last] else []
  }

  /**
   * What has been handed on of a stream is a prefix of its plaintext, `left` is
   * the rest, and nothing is missing once there is an error other than the
   * destination's.
   */
  ghost predicate Account(o: Event, got: Bytes, left: Bytes, leftEnd: Err, err: Option<Err>, failed: bool)
    requires o.Open?
  {
    var s := Fresh(Flat(o.pieces));
    var all, end := Plaintext(o.cipher, s, o.end), FinalErr(o.cipher, s, o.end);
    && (failed ==> err == Some(SinkFailed))
    && if err.None? || failed then all == got + left && end == leftEnd else all == got && end == err.value
  }

  lemma AccountStarts(o: Event, left: Bytes, leftEnd: Err)
    requires o.Open? && left == Plaintext(o.cipher, Fresh(Flat(o.pieces)), o.end)
    requires leftEnd == FinalErr(o.cipher, Fresh(Flat(o.pieces)), o.end)
    ensures Account(o, [], left, leftEnd, None, false)
  {
    hide Plaintext, FinalErr, Flat;
    assert [] + left == left;
  }

  lemma AccountStep(o: Event, got: Bytes, left: Bytes, leftEnd: Err, data: Bytes, left': Bytes, leftEnd': Err,
      err: Option<Err>, failed: bool)
    requires o.Open? && Account(o, got, left, leftEnd, None, false) && (failed ==> err == Some(SinkFailed))
    requires if err.None? || failed then left == data + left' && leftEnd' == leftEnd
             else data == [] && err.value == leftEnd && left == []
    ensures Account(o, got + data, left', leftEnd', err, failed)
  {
    hide Plaintext, FinalErr, Flat;
    assert got + (data + left') == (got + data) + left';
  }

  lemma NotFailed(o: Event, got: Bytes, left: Bytes, leftEnd: Err, failed: bool)
    requires o.Open? && Account(o, got, left, leftEnd, None, failed)
    ensures !failed
  {
  }

  /** One reader has handed on of its own stream what it should. */
  ghost predicate Delivered(r: ReadConverter, dst: Sink, got: Bytes, err: Option<Err>, o: Event)
    requires o.Open?
    reads r, r.cr, r.cr.counter, r.cr.payload, r.cr.src, if r.from < r.to then {r.leftBuf} else {}, dst
  {
    && r.Ready() && dst.Valid() && dst.plan == o.plan && dst.received == (if o.relay then got else [])
    && Account(o, got, r.Plain(), r.End(), err, dst.failures > 0)
  }

  /** All readers have delivered of their own streams what they should. */
  ghost predicate AllDelivered(
      rs: seq<ReadConverter>, dsts: seq<Sink>, got: seq<Bytes>, errs: seq<Option<Err>>, streams: seq<Event>)
    reads rs, dsts
    reads set r | r in rs :: r.cr, set r | r in rs :: r.cr.counter, set r | r in rs :: r.cr.src
    reads set r | r in rs :: r.cr.payload, set r | r in rs && r.from < r.to :: r.leftBuf
  {
    && |rs| == |dsts| == |got| == |errs| == |streams|
    && (forall i, j :: 0 <= i < |dsts| && 0 <= j < |dsts| && i != j ==> dsts[i] != dsts[j])
    && forall i :: 0 <= i < |rs| ==> streams[i].Open? && Delivered(rs[i], dsts[i], got[i], errs[i], streams[i])
  }

  /** One step of one reader. */
  method Proceed(pool: Pool, rs: seq<ReadConverter>, dsts: seq<Sink>, got: seq<Bytes>, errs: seq<Option<Err>>,
      streams: seq<Event>, who: nat, size: nat)
    returns (data: Bytes, err: Option<Err>)
    requires AllApart(pool, rs) && AllDelivered(rs, dsts, got, errs, streams) && who < |rs| && errs[who].None?
    modifies rs[who], rs[who].cr, rs[who].cr.src, rs[who].cr.counter, rs[who].cr.payloadSizeBuf, rs[who].cr.payload
    modifies pool`free, pool`made, pool.free, rs[who].cr.payload.Held(), dsts[who]
    ensures AllApart(pool, rs)
    ensures AllDelivered(rs, dsts, got[who := got[who] + data], errs[who := err], streams)
    ensures fresh(Parts(rs[who]) - old(Parts(rs[who])) - old(pool.free))
    ensures fresh(pool.made - old(pool.made)) && old(pool.made) <= pool.made
    ensures forall b :: b in pool.free ==> b in old(pool.free) + old(rs[who].cr.payload.Held()) || fresh(b)
  {
    hide Plaintext, FinalErr, Supported, Flat, Pool.Valid, ChunkReader.Valid, Apart, ReadConverter.Valid;
    hide ReadConverter.Ready, ReadConverter.Leftover, ReadConverter.Plain, ReadConverter.End, Account;
    ghost var left, end := rs[who].Plain(), rs[who].End();
    assert Delivered(rs[who], dsts[who], got[who], errs[who], streams[who]);
    NotFailed(streams[who], got[who], left, end, dsts[who].failures > 0);
    data, err := Turn(pool, rs, who, streams[who].relay, size, dsts[who]);
    AccountStep(streams[who], got[who], left, end, data, rs[who].Plain(), rs[who].End(), err, dsts[who].failures > 0);
  }

  /** The same, within the common footprint. */
  method ProceedWithin(pool: Pool, rs: seq<ReadConverter>, dsts: seq<Sink>, got: seq<Bytes>,
      errs: seq<Option<Err>>, streams: seq<Event>, who: nat, size: nat)
    returns (data: Bytes, err: Option<Err>)
    requires AllApart(pool, rs) && AllDelivered(rs, dsts, got, errs, streams) && who < |rs| && errs[who].None?
    modifies Footprint(pool, rs, dsts), pool`free, pool`made
    ensures AllApart(pool, rs)
    ensures AllDelivered(rs, dsts, got[who := got[who] + data], errs[who := err], streams)
    ensures forall x :: x in Footprint(pool, rs, dsts) ==> x in old(Footprint(pool, rs, dsts)) || fresh(x)
    ensures pool.slices == old(pool.slices)
    ensures fresh(pool.made - old(pool.made)) && old(pool.made) <= pool.made
  {
    hide Plaintext, FinalErr, Decode, Supported, Flat, Pool.Valid, ChunkReader.Valid, ReadConverter.Valid;
    hide ReadConverter.Ready, ReadConverter.Leftover, ReadConverter.Plain, ReadConverter.End, AllDelivered, Footprint;
    Within(pool, rs, dsts, got, errs, streams, who);
    data, err := Proceed(pool, rs, dsts, got, errs, streams, who, size);
    forall x | x in Footprint(pool, rs, dsts) && !fresh(x)
      ensures x in old(Footprint(pool, rs, dsts))
    {
      var r := WhoseIsIt(pool, rs, dsts, x);
    }
  }

  lemma Within(pool: Pool, rs: seq<ReadConverter>, dsts: seq<Sink>, got: seq<Bytes>, errs: seq<Option<Err>>,
      streams: seq<Event>, who: nat)
    requires AllDelivered(rs, dsts, got, errs, streams) && who < |rs|
    ensures |dsts| == |rs| && dsts[who] in Footprint(pool, rs, dsts) && pool.free <= Footprint(pool, rs, dsts)
    ensures var r, f := rs[who], Footprint(pool, rs, dsts);
      && r in f && r.cr in f && r.cr.src in f && r.cr.payload in f && r.cr.counter in f && r.cr.payloadSizeBuf in f
      && forall b :: b in r.cr.payload.Held() ==> b in f
    ensures forall d :: d in dsts ==> d in Footprint(pool, rs, dsts)
    ensures forall r :: r in rs ==> Parts(r) <= Footprint(pool, rs, dsts)
  {
    hide Delivered;
    var r, f := rs[who], Footprint(pool, rs, dsts);
    assert r in rs;
    assert forall x :: x in Parts(r) ==> x in f;
    assert {r, r.cr, r.cr.src, r.cr.payload, r.cr.counter, r.cr.payloadSizeBuf} <= Parts(r);
    assert r.cr in Parts(r) && r.cr.src in Parts(r) && r.cr.payload in Parts(r);
    assert r.cr.counter in Parts(r) && r.cr.payloadSizeBuf in Parts(r);
  }

  /** An object of the footprint is a free buffer, a destination, or part of a reader. */
  lemma WhoseIsIt(pool: Pool, rs: seq<ReadConverter>, dsts: seq<Sink>, x: object) returns (r: ReadConverter?)
    requires x in Footprint(pool, rs, dsts)
    ensures if r == null then x in pool.free || x in dsts else r in rs && x in Parts(r)
  {
    r := null;
    if x !in pool.free && x !in dsts {
      r :| r in rs && x in Parts(r);
    }
  }

  /** A new stream with a reader and a destination of its own. */
  method Arrive(pool: Pool, rs: seq<ReadConverter>, dsts: seq<Sink>, got: seq<Bytes>, errs: seq<Option<Err>>,
      ghost streams: seq<Event>, e: Event)
    returns (r: ReadConverter, dst: Sink)
    requires AllApart(pool, rs) && AllDelivered(rs, dsts, got, errs, streams) && e.Open?
    modifies pool`slices
    ensures AllApart(pool, rs + [r])
    ensures AllDelivered(rs + [r], dsts + [dst], got + [[]], errs + [None], streams + [e])
    ensures fresh(r.cr.payload)
    ensures forall x :: x in Footprint(pool, rs + [r], dsts + [dst]) ==>
              x in old(Footprint(pool, rs, dsts)) || fresh(x)
    ensures pool.slices == old(pool.slices) + {r.cr.payload}
  {
    hide Plaintext, FinalErr, Supported, Flat, Pool.Valid, ChunkReader.Valid, Apart, ReadConverter.Valid;
    hide ReadConverter.Ready, ReadConverter.Leftover, ReadConverter.Plain, ReadConverter.End;
    hide AllApart, AllDelivered, Account, Footprint, Parts;
    r := OpenOne(pool, rs, e.pieces, e.end, e.eager, e.cipher);
    dst := new Sink(e.plan);
    AccountStarts(e, r.Plain(), r.End());
    DeliveredSnoc(rs, dsts, got, errs, streams, r, dst, e);
    FootprintSnoc(pool, rs, dsts, r, dst);
  }

  lemma DeliveredSnoc(rs: seq<ReadConverter>, dsts: seq<Sink>, got: seq<Bytes>, errs: seq<Option<Err>>,
      streams: seq<Event>, r: ReadConverter, dst: Sink, e: Event)
    requires AllDelivered(rs, dsts, got, errs, streams) && e.Open? && Delivered(r, dst, [], None, e)
    requires forall i :: 0 <= i < |dsts| ==> dsts[i] != dst
    ensures AllDelivered(rs + [r], dsts + [dst], got + [[]], errs + [None], streams + [e])
  {
    hide Delivered;
  }

  lemma FootprintSnoc(pool: Pool, rs: seq<ReadConverter>, dsts: seq<Sink>, r: ReadConverter, dst: Sink)
    ensures Footprint(pool, rs + [r], dsts + [dst]) == Footprint(pool, rs, dsts) + Parts(r) + {dst}
  {
    hide Parts;
    assert r in rs + [r] && dst in dsts + [dst];
    assert forall q :: q in rs ==> q in rs + [r];
    assert forall d :: d in dsts ==> d in dsts + [dst];
  }

  /** One event. */
  method Happen(pool: Pool, rs: seq<ReadConverter>, dsts: seq<Sink>, got: seq<Bytes>, errs: seq<Option<Err>>,
      streams: seq<Event>, e: Event)
    returns (rs': seq<ReadConverter>, dsts': seq<Sink>, got': seq<Bytes>, errs': seq<Option<Err>>)
    requires AllApart(pool, rs) && AllDelivered(rs, dsts, got, errs, streams)
    modifies Footprint(pool, rs, dsts), pool`slices, pool`free, pool`made
    ensures AllApart(pool, rs')
    ensures AllDelivered(rs', dsts', got', errs', streams + if e.Open? then [e] else [])
    ensures forall x :: x in Footprint(pool, rs', dsts') ==> x in old(Footprint(pool, rs, dsts)) || fresh(x)
    ensures old(pool.slices) <= pool.slices && fresh(pool.slices - old(pool.slices))
    ensures old(pool.made) <= pool.made && fresh(pool.made - old(pool.made))
  {
    hide Pool.Valid, ReadConverter.Valid, AllApart, AllDelivered, Footprint;
    SameLengths(rs, dsts, got, errs, streams);
    rs', dsts', got', errs' := rs, dsts, got, errs;
    match e {
      case Open(pieces, end, eager, cipher, relay, plan) =>
        var r, dst := Arrive(pool, rs, dsts, got, errs, streams, e);
        rs', dsts', got', errs' := rs + [r], dsts + [dst], got + [[]], errs + [None];
      case Step(who, size) =>
        assert streams + [] == streams;
        if who < |rs| && errs[who].None? {
          var data, err := ProceedWithin(pool, rs, dsts, got, errs, streams, who, size);
          got', errs' := got[who := got[who] + data], errs[who := err];
        }
    }
  }

  lemma SameLengths(rs: seq<ReadConverter>, dsts: seq<Sink>, got: seq<Bytes>, errs: seq<Option<Err>>,
      streams: seq<Event>)
    requires AllDelivered(rs, dsts, got, errs, streams)
    ensures |rs| == |dsts| == |got| == |errs| == |streams|
  {
    hide Delivered;
  }

  /** New streams and steps of their readers in any order. */
  method Interleave(pool: Pool, events: seq<Event>)
    returns (rs: seq<ReadConverter>, dsts: seq<Sink>, got: seq<Bytes>, errs: seq<Option<Err>>)
    requires pool.Valid() && pool.len == READ_BUF_SIZE
    modifies pool`slices, pool`free, pool`made, pool.free
    ensures pool.Grown() && AllApart(pool, rs) && AllDelivered(rs, dsts, got, errs, Opened(events))
  {
    hide Pool.Valid, AllApart, Delivered, Footprint;
    rs, dsts, got, errs := [], [], [], [];
    NoReaders(pool);
    var k := 0;
    while k < |events|
      invariant k <= |events| && AllApart(pool, rs)
      invariant AllDelivered(rs, dsts, got, errs, Opened(events[..k]))
      invariant forall x :: x in Footprint(pool, rs, dsts) ==> x in old(pool.free) || fresh(x)
      invariant old(pool.slices) <= pool.slices && fresh(pool.slices - old(pool.slices))
      invariant old(pool.made) <= pool.made && fresh(pool.made - old(pool.made))
    {
      assert events[..k + 1][..k] == events[..k];
      rs, dsts, got, errs := Happen(pool, rs, dsts, got, errs, Opened(events[..k]), events[k]);
      k := k + 1;
    }
    assert events[..k] == events;
    FreeInFootprint(pool, rs, dsts);
  }

  lemma NoReaders(pool: Pool)
    requires pool.Valid() && pool.len == READ_BUF_SIZE
    ensures Footprint(pool, [], []) == pool.free && AllApart(pool, [])
  {
  }

  lemma FreeInFootprint(pool: Pool, rs: seq<ReadConverter>, dsts: seq<Sink>)
    requires AllApart(pool, rs)
    ensures pool.Valid()
    ensures forall b :: b in pool.free ==> b in Footprint(pool, rs, dsts)
  {
  }
}
