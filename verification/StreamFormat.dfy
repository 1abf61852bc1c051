/**
 * The Shadowsocks TCP stream format: what a sequence of chunks looks like on
 * the wire, and what a reader makes of a byte stream.
 *
 * These are the reference definitions. The buffer-based writer and reader are
 * proved against them in StreamWriter.dfy and StreamReader.dfy.
 */
module StreamFormat {
  import opened ByteSeqs
  import opened Crypto

  /** Largest payload of one chunk; also the mask applied to the length field. */
  const MAX_PAYLOAD: nat := 0x3FFF

  /** `&` with 0x3FFF keeps the low 14 bits. */
  function MaskLength(n: nat): (r: nat)
    ensures r <= MAX_PAYLOAD
    ensures n <= MAX_PAYLOAD ==> r == n
  {
    n % 0x4000
  }

  datatype Err = Eof | UnexpectedEof | Decrypt | ShortBuffer | SinkFailed | SaltFailed | ReadFailed

  ghost predicate ValidChunks(chunks: seq<Bytes>) {
    forall i :: 0 <= i < |chunks| ==> |chunks[i]| <= MAX_PAYLOAD
  }

  ghost predicate NoneEmpty(chunks: seq<Bytes>) {
    forall i :: 0 <= i < |chunks| ==> chunks[i] != []
  }

  // ------------------------------------------------------------------ writing

  function BlockNonce(a: Aead, k: nat): (n: Bytes)
    ensures |n| == a.nonceSize
  {
    Nonce(a.nonceSize, k)
  }

  /** The two sealed blocks of the chunk whose first block has index k. */
  function ChunkBytes(a: Aead, k: nat, payload: Bytes): Bytes {
    a.seal(BlockNonce(a, k), PutUint16(|payload|)) + a.seal(BlockNonce(a, k + 1), payload)
  }

  /** What one flush sends: the salt goes first whenever the counter reads zero. */
  function FlushBytes(a: Aead, salt: Bytes, k: nat, payload: Bytes): Bytes {
    (if AllZero(BlockNonce(a, k)) then salt else []) + ChunkBytes(a, k, payload)
  }

  /** Everything sent for `chunks`, the i-th of which starts at block 2*i. */
  function Wire(a: Aead, salt: Bytes, chunks: seq<Bytes>): Bytes {
    if chunks == [] then []
    else
      var last := |chunks| - 1;
      Wire(a, salt, chunks[..last]) + FlushBytes(a, salt, 2 * last, chunks[last])
  }

  lemma WireSnoc(a: Aead, salt: Bytes, chunks: seq<Bytes>, x: Bytes)
    ensures Wire(a, salt, chunks + [x]) == Wire(a, salt, chunks) + FlushBytes(a, salt, 2 * |chunks|, x)
  {
    hide FlushBytes;
    assert (chunks + [x])[..|chunks|] == chunks;
  }

  /** Sealed blocks only, from block index k on. */
  function Blocks(a: Aead, k: nat, chunks: seq<Bytes>): Bytes
    decreases |chunks|
  {
    if chunks == [] then [] else ChunkBytes(a, k, chunks[0]) + Blocks(a, k + 2, chunks[1..])
  }

  lemma {:induction false} BlocksSnoc(a: Aead, k: nat, chunks: seq<Bytes>, x: Bytes)
    ensures Blocks(a, k, chunks + [x]) == Blocks(a, k, chunks) + ChunkBytes(a, k + 2 * |chunks|, x)
    decreases |chunks|
  {
    hide ToInt, ToByte, Nonce, PutUint16, GetUint16;
    if chunks == [] {
      assert [x][1..] == [];
    } else {
      BlocksSnoc(a, k + 2, chunks[1..], x);
      assert (chunks + [x])[1..] == chunks[1..] + [x];
    }
  }

  /** The counter has not yet come back to zero: fewer than 2^95 chunks for 12-byte nonces. */
  predicate NoWrap(a: Aead, chunks: nat) {
    2 * chunks <= Pow256(a.nonceSize)
  }

  lemma SaltAtZero(a: Aead, salt: Bytes, k: nat, payload: Bytes)
    requires k < Pow256(a.nonceSize)
    ensures FlushBytes(a, salt, k, payload)
         == if k == 0 then salt + ChunkBytes(a, k, payload) else ChunkBytes(a, k, payload)
  {
    NonceZero(a.nonceSize, k);
    ModSmall(k, Pow256(a.nonceSize));
  }

  /** The salt is on the wire exactly once and first, until the counter wraps around. */
  lemma {:induction false} SaltOnceFirst(a: Aead, salt: Bytes, chunks: seq<Bytes>)
    requires NoWrap(a, |chunks|)
    ensures Wire(a, salt, chunks) == if chunks == [] then [] else salt + Blocks(a, 0, chunks)
  {
    hide FlushBytes, ChunkBytes, Wire, Blocks, NoWrap;
    if chunks == [] {
      NothingSent(a, salt);
    } else {
      var last := |chunks| - 1;
      var front, x := chunks[..last], chunks[last];
      NoWrapFront(a, last);
      SaltOnceFirst(a, salt, front);
      SaltAtZero(a, salt, 2 * last, x);
      WireSnoc(a, salt, front, x);
      BlocksSnoc(a, 0, front, x);
      assert chunks == front + [x];
      if last == 0 {
        NothingSent(a, salt);
        assert [] + (salt + ChunkBytes(a, 0, x)) == salt + ([] + ChunkBytes(a, 0, x));
      } else {
        var blocks, more := Blocks(a, 0, front), ChunkBytes(a, 2 * last, x);
        assert (salt + blocks) + more == salt + (blocks + more);
      }
    }
  }

  lemma NothingSent(a: Aead, salt: Bytes)
    ensures Wire(a, salt, []) == [] && Blocks(a, 0, []) == []
  {
  }

  lemma NoWrapFront(a: Aead, last: nat)
    requires NoWrap(a, last + 1)
    ensures NoWrap(a, last) && 2 * last < Pow256(a.nonceSize)
  {
  }

  /** Whatever has been sent begins with the salt. */
  lemma {:induction false} SaltGoesFirst(a: Aead, salt: Bytes, chunks: seq<Bytes>)
    requires chunks != []
    ensures |salt| <= |Wire(a, salt, chunks)| && Wire(a, salt, chunks)[..|salt|] == salt
  {
    var last := |chunks| - 1;
    hide ChunkBytes, BlockNonce, Pow256;
    if last == 0 {
      SaltAtZero(a, salt, 0, chunks[0]);
    } else {
      SaltGoesFirst(a, salt, chunks[..last]);
    }
  }

  /** The k-th block uses nonce k, and no two blocks share one before the counter wraps. */
  lemma NoncesDistinct(a: Aead, i: nat, j: nat)
    requires i < Pow256(a.nonceSize) && j < Pow256(a.nonceSize) && i != j
    ensures BlockNonce(a, i) != BlockNonce(a, j)
  {
    NonceCollision(a.nonceSize, i, j);
    ModUnique(i, Pow256(a.nonceSize), 0, i);
    ModUnique(j, Pow256(a.nonceSize), 0, j);
  }

  /** Bytes as they go over the wire: lengths are big-endian, and counters little-endian. */
  lemma OnTheWire()
    ensures PutUint16(0x1234) == [0x12, 0x34] && GetUint16([0x12, 0x34]) == 0x1234
    ensures Nonce(3, 0) == [0, 0, 0] && Nonce(3, 1) == [1, 0, 0] && Nonce(3, 0x0201) == [1, 2, 0]
    ensures Succ([0xff, 0, 0]) == [0, 1, 0] && Succ([0xff, 0xff, 0xff]) == [0, 0, 0]
  {
    ByteIs(0x12, 0x12);
    ByteIs(0x1234, 0x34);
    ByteIs(0, 0);
    ByteIs(1, 1);
    ByteIs(0x0201, 1);
    ByteIs(2, 2);
  }

  lemma ByteIs(n: nat, b: byte)
    requires n % 256 == ToInt(b)
    ensures ToByte(n) == b
  {
    ToIntInjective(ToByte(n), b);
  }

  // ------------------------------------------------------------------ reading

  /** Reading a full buffer of n bytes from a stream that ends with `end`. */
  function ReadError(available: nat, end: Err): Err {
    if available > 0 && end == Eof then UnexpectedEof else end
  }

  datatype Message = Opened(plaintext: Bytes) | Failed(err: Err)

  /** One sealed block of n bytes: what it opens to, the next block index, the bytes left. */
  function ReadMessage(a: Aead, k: nat, bytes: Bytes, n: nat, end: Err): (r: (Message, nat, Bytes))
    ensures |r.2| <= |bytes|
  {
    if |bytes| < n then (Failed(ReadError(|bytes|, end)), k, [])
    else
      match a.open(BlockNonce(a, k), bytes[..n])
      case None => (Failed(Decrypt), k + 1, bytes[n..])
      case Some(p) => (Opened(p), k + 1, bytes[n..])
  }

  /** What a reader knows between chunks. */
  datatype ReaderState =
    | Fresh(bytes: Bytes)
    | Keyed(aead: Aead, block: nat, bytes: Bytes)

  ghost predicate ValidState(s: ReaderState) {
    s.Keyed? ==> LawfulAead(s.aead)
  }

  /** Reads the salt and derives the session key, if that has not been done yet. */
  function Init(c: CipherSpec, s: ReaderState, end: Err): (r: (Option<Err>, ReaderState))
    ensures r.0.None? <==> r.1.Keyed?
    ensures |r.1.bytes| <= |s.bytes|
  {
    if s.Keyed? then (None, s)
    else if |s.bytes| < c.saltSize then (Some(ReadError(|s.bytes|, end)), Fresh([]))
    else (None, Keyed(c.newAead(s.bytes[..c.saltSize]), 0, s.bytes[c.saltSize..]))
  }

  /** The next chunk after the salt. */
  function NextChunk(s: ReaderState, end: Err): (r: (Message, ReaderState))
    requires s.Keyed? && ValidState(s)
    ensures r.1.Keyed? && r.1.aead == s.aead
    ensures |r.1.bytes| <= |s.bytes|
    ensures r.0.Opened? ==> |r.1.bytes| + 2 + 2 * s.aead.overhead <= |s.bytes|
  {
    var a := s.aead;
    var (size, k, rest) := ReadMessage(a, s.block, s.bytes, 2 + a.overhead, end);
    if size.Failed? then (size, Keyed(a, k, rest))
    else
      var n := MaskLength(GetUint16(size.plaintext));
      var (payload, k', rest') := ReadMessage(a, k, rest, n + a.overhead, end);
      (if payload == Failed(Eof) then Failed(UnexpectedEof) else payload, Keyed(a, k', rest'))
  }

  function ReadChunk(c: CipherSpec, s: ReaderState, end: Err): (r: (Message, ReaderState))
    requires Supported(c) && ValidState(s)
    ensures ValidState(r.1)
    ensures |r.1.bytes| <= |s.bytes|
    ensures r.0.Opened? ==> |r.1.bytes| + 2 <= |s.bytes|
  {
    var (err, s') := Init(c, s, end);
    if err.Some? then (Failed(err.value), s') else NextChunk(s', end)
  }

  /** All chunks up to the first error, and that error. */
  function Decode(c: CipherSpec, s: ReaderState, end: Err): (seq<Bytes>, Err)
    requires Supported(c) && ValidState(s)
    decreases |s.bytes|
  {
    var (m, s') := ReadChunk(c, s, end);
    match m
    case Failed(e) => ([], e)
    case Opened(p) =>
      var (chunks, e) := Decode(c, s', end);
      ([p] + chunks, e)
  }

  /** The plaintext a reader in state s delivers before its first error. */
  function Plaintext(c: CipherSpec, s: ReaderState, end: Err): Bytes
    requires Supported(c) && ValidState(s)
  {
    Flat(Decode(c, s, end).0)
  }

  /** The first error of a reader in state s. */
  function FinalErr(c: CipherSpec, s: ReaderState, end: Err): Err
    requires Supported(c) && ValidState(s)
  {
    Decode(c, s, end).1
  }

  lemma PlaintextStep(c: CipherSpec, s: ReaderState, end: Err, m: Message, s': ReaderState)
    requires Supported(c) && ValidState(s)
    requires ReadChunk(c, s, end) == (m, s')
    ensures match m
      case Failed(e) => Plaintext(c, s, end) == [] && FinalErr(c, s, end) == e
      case Opened(p) => Plaintext(c, s, end) == p + Plaintext(c, s', end)
                        && FinalErr(c, s, end) == FinalErr(c, s', end)
  {
    hide ReadChunk;
    match m
    case Failed(e) => DecodeFailed(c, s, end, e);
    case Opened(p) =>
      DecodeOpened(c, s, end, p, s');
      assert ([p] + Decode(c, s', end).0)[1..] == Decode(c, s', end).0;
  }

  lemma DecodeOpened(c: CipherSpec, s: ReaderState, end: Err, p: Bytes, s': ReaderState)
    requires Supported(c) && ValidState(s)
    requires ReadChunk(c, s, end) == (Opened(p), s')
    ensures Decode(c, s, end) == ([p] + Decode(c, s', end).0, Decode(c, s', end).1)
  {
    hide ToInt, ToByte, Nonce, PutUint16, GetUint16;
  }

  lemma DecodeFailed(c: CipherSpec, s: ReaderState, end: Err, e: Err)
    requires Supported(c) && ValidState(s)
    requires ReadChunk(c, s, end).0 == Failed(e)
    ensures Decode(c, s, end) == ([], e)
  {
    hide ToInt, ToByte, Nonce, PutUint16, GetUint16;
  }

  /** An empty chunk that comes next is the first one to be decoded. */
  lemma NextEmptyIsDecoded(c: CipherSpec, s: ReaderState, end: Err)
    requires Supported(c) && ValidState(s) && ReadChunk(c, s, end).0 == Opened([])
    ensures !NoneEmpty(Decode(c, s, end).0)
  {
    hide ReadChunk;
    DecodeOpened(c, s, end, [], ReadChunk(c, s, end).1);
    assert Decode(c, s, end).0[0] == [];
  }

  /** Reading the salt first does not change what is decoded. */
  lemma DecodeAfterSalt(c: CipherSpec, salt: Bytes, rest: Bytes, end: Err)
    requires Supported(c) && |salt| == c.saltSize
    ensures Decode(c, Fresh(salt + rest), end) == Decode(c, Keyed(c.newAead(salt), 0, rest), end)
  {
    hide ToInt, ToByte, Nonce, PutUint16, GetUint16;
    assert (salt + rest)[..|salt|] == salt && (salt + rest)[|salt|..] == rest;
    var s1, s2 := Fresh(salt + rest), Keyed(c.newAead(salt), 0, rest);
    assert ReadChunk(c, s1, end) == ReadChunk(c, s2, end);
    var (m, s') := ReadChunk(c, s2, end);
    if m.Opened? {
      DecodeOpened(c, s1, end, m.plaintext, s');
      DecodeOpened(c, s2, end, m.plaintext, s');
    } else {
      DecodeFailed(c, s1, end, m.err);
      DecodeFailed(c, s2, end, m.err);
    }
  }

  // -------------------------------------------------------------- round trips

  /** The mask keeps the low 14 bits, whatever the high ones are. */
  lemma MaskKeepsLowBits(high: nat, low: nat)
    requires low < 0x4000
    ensures MaskLength(0x4000 * high + low) == low
  {
    ModUnique(0x4000 * high + low, 0x4000, high, low);
  }

  lemma PutGet(n: nat)
    requires n <= MAX_PAYLOAD
    ensures MaskLength(GetUint16(PutUint16(n))) == n
  {
    hide ToInt, ToByte;
  }

  /** A chunk read back from its own blocks, whatever follows it. */
  lemma ReadBack(a: Aead, k: nat, payload: Bytes, rest: Bytes, end: Err)
    requires LawfulAead(a) && |payload| <= MAX_PAYLOAD
    ensures |ChunkBytes(a, k, payload)| == 2 + |payload| + 2 * a.overhead
    ensures NextChunk(Keyed(a, k, ChunkBytes(a, k, payload) + rest), end)
         == (Opened(payload), Keyed(a, k + 2, rest))
  {
    hide ToInt, ToByte, Nonce, PutUint16, GetUint16;
    var b1 := a.seal(BlockNonce(a, k), PutUint16(|payload|));
    var b2 := a.seal(BlockNonce(a, k + 1), payload);
    var bytes := b1 + b2 + rest;
    assert bytes[..2 + a.overhead] == b1;
    assert bytes[2 + a.overhead..] == b2 + rest;
    PutGet(|payload|);
    assert (b2 + rest)[..|payload| + a.overhead] == b2;
    assert (b2 + rest)[|payload| + a.overhead..] == rest;
  }

  /** What a reader makes of an end inside a salt or a chunk. */
  function Broken(end: Err): Err {
    if end == Eof then UnexpectedEof else end
  }

  /** A chunk cut anywhere before its end is never delivered. */
  lemma ReadCut(a: Aead, k: nat, payload: Bytes, cut: nat, end: Err)
    requires LawfulAead(a) && |payload| <= MAX_PAYLOAD
    requires cut < |ChunkBytes(a, k, payload)|
    ensures NextChunk(Keyed(a, k, ChunkBytes(a, k, payload)[..cut]), end).0
         == Failed(if cut == 0 then end else Broken(end))
  {
    hide ToInt, ToByte, Nonce, PutUint16, GetUint16;
    var b1 := a.seal(BlockNonce(a, k), PutUint16(|payload|));
    var b2 := a.seal(BlockNonce(a, k + 1), payload);
    var bytes := (b1 + b2)[..cut];
    if cut >= 2 + a.overhead {
      assert bytes[..2 + a.overhead] == b1;
      PutGet(|payload|);
    }
  }

  lemma DecodeChunk(c: CipherSpec, a: Aead, k: nat, payload: Bytes, rest: Bytes, end: Err)
    requires Supported(c) && LawfulAead(a) && |payload| <= MAX_PAYLOAD
    ensures Decode(c, Keyed(a, k, ChunkBytes(a, k, payload) + rest), end)
         == ([payload] + Decode(c, Keyed(a, k + 2, rest), end).0, Decode(c, Keyed(a, k + 2, rest), end).1)
  {
    hide ToInt, ToByte, Nonce, PutUint16, GetUint16;
    ReadBack(a, k, payload, rest, end);
    DecodeOpened(c, Keyed(a, k, ChunkBytes(a, k, payload) + rest), end, payload, Keyed(a, k + 2, rest));
  }

  lemma DecodeEmpty(c: CipherSpec, a: Aead, k: nat, end: Err)
    requires Supported(c) && LawfulAead(a)
    ensures Decode(c, Keyed(a, k, []), end) == ([], end)
  {
    hide ToInt, ToByte, Nonce, PutUint16, GetUint16;
  }

  lemma DecodeCutChunk(c: CipherSpec, a: Aead, k: nat, payload: Bytes, cut: nat, end: Err)
    requires Supported(c) && LawfulAead(a) && |payload| <= MAX_PAYLOAD
    requires cut < |ChunkBytes(a, k, payload)|
    ensures Decode(c, Keyed(a, k, ChunkBytes(a, k, payload)[..cut]), end)
         == ([], if cut == 0 then end else Broken(end))
  {
    hide ToInt, ToByte, Nonce, PutUint16, GetUint16;
    ReadCut(a, k, payload, cut, end);
    DecodeFailed(c, Keyed(a, k, ChunkBytes(a, k, payload)[..cut]), end, if cut == 0 then end else Broken(end));
  }

  /** Index of the wire byte where the first n chunks end; 0 chunks end after the salt. */
  function Boundary(a: Aead, saltSize: nat, chunks: seq<Bytes>, n: nat): nat
    requires n <= |chunks|
  {
    saltSize + |Blocks(a, 0, chunks[..n])|
  }

  /** The chunks wholly contained in the first `cut` bytes of the blocks. */
  function CompleteChunks(a: Aead, k: nat, chunks: seq<Bytes>, cut: nat): (n: nat)
    ensures n <= |chunks|
    decreases |chunks|
  {
    if chunks == [] || cut < |ChunkBytes(a, k, chunks[0])| then 0
    else 1 + CompleteChunks(a, k + 2, chunks[1..], cut - |ChunkBytes(a, k, chunks[0])|)
  }

  /** `CompleteChunks` is the largest n whose blocks fit in the cut. */
  lemma {:induction false} CompleteChunksIsLargest(a: Aead, k: nat, chunks: seq<Bytes>, cut: nat)
    ensures var n := CompleteChunks(a, k, chunks, cut);
      && |Blocks(a, k, chunks[..n])| <= cut
      && (n < |chunks| ==> cut < |Blocks(a, k, chunks[..n + 1])|)
    decreases |chunks|
  {
    hide ToInt, ToByte, Nonce, PutUint16, GetUint16;
    if chunks != [] {
      var first := |ChunkBytes(a, k, chunks[0])|;
      if cut < first {
        assert chunks[..1] == [chunks[0]];
        assert chunks[..1][1..] == [];
      } else {
        var t := chunks[1..];
        CompleteChunksIsLargest(a, k + 2, t, cut - first);
        var n := CompleteChunks(a, k + 2, t, cut - first);
        assert chunks[..n + 1][1..] == t[..n];
        if n < |t| {
          assert chunks[..n + 2][1..] == t[..n + 1];
        }
      }
    }
  }

  /** Blocks cut at any byte: the complete chunks come out, and the end is clean only at a boundary. */
  lemma {:induction false} DecodeCutBlocks(c: CipherSpec, a: Aead, k: nat, chunks: seq<Bytes>, cut: nat, end: Err)
    requires Supported(c) && LawfulAead(a) && ValidChunks(chunks)
    requires cut <= |Blocks(a, k, chunks)|
    ensures var n := CompleteChunks(a, k, chunks, cut);
      Decode(c, Keyed(a, k, Blocks(a, k, chunks)[..cut]), end)
      == (chunks[..n], if cut == |Blocks(a, k, chunks[..n])| then end else Broken(end))
    decreases |chunks|
  {
    hide ToInt, ToByte, Nonce, PutUint16, GetUint16;
    hide Decode, NextChunk, ReadChunk;
    if chunks == [] {
      DecodeEmpty(c, a, k, end);
    } else {
      var first := ChunkBytes(a, k, chunks[0]);
      if cut < |first| {
        assert Blocks(a, k, chunks)[..cut] == first[..cut];
        DecodeCutChunk(c, a, k, chunks[0], cut, end);
      } else {
        var t, cut' := chunks[1..], cut - |first|;
        var rest := Blocks(a, k + 2, t)[..cut'];
        assert Blocks(a, k, chunks)[..cut] == first + rest;
        DecodeChunk(c, a, k, chunks[0], rest, end);
        DecodeCutBlocks(c, a, k + 2, t, cut', end);
        var n := CompleteChunks(a, k + 2, t, cut');
        assert chunks[..n + 1] == [chunks[0]] + t[..n];
        assert chunks[..n + 1][1..] == t[..n];
      }
    }
  }

  lemma DecodeShortSalt(c: CipherSpec, bytes: Bytes, end: Err)
    requires Supported(c) && |bytes| < c.saltSize
    ensures Decode(c, Fresh(bytes), end) == ([], if bytes == [] then end else Broken(end))
  {
    hide ToInt, ToByte, Nonce, PutUint16, GetUint16;
    DecodeFailed(c, Fresh(bytes), end, if bytes == [] then end else Broken(end));
  }

  /** The shape of what is decoded from a stream cut at byte `cut`. */
  ghost predicate CutOutcome(a: Aead, saltSize: nat, chunks: seq<Bytes>, cut: nat, end: Err, out: seq<Bytes>,
      err: Err)
  {
    && |out| <= |chunks| && out == chunks[..|out|]
    && (cut >= saltSize ==> Boundary(a, saltSize, chunks, |out|) <= cut)
    && (|out| < |chunks| ==> cut < Boundary(a, saltSize, chunks, |out| + 1))
    && err == if cut == 0 || cut == Boundary(a, saltSize, chunks, |out|) then end else Broken(end)
  }

  /**
   * Truncation: a valid stream cut at any byte yields exactly the chunks that
   * are complete, and ends cleanly iff the cut is at 0, right after the salt,
   * or at the end of a chunk.
   */
  lemma Truncation(c: Cipher, salt: Bytes, chunks: seq<Bytes>, cut: nat, end: Err, out: seq<Bytes>, err: Err)
    requires |salt| == c.saltSize && ValidChunks(chunks) && NoWrap(c.newAead(salt), |chunks|)
    requires cut <= |Wire(c.newAead(salt), salt, chunks)|
    requires Decode(c, Fresh(Wire(c.newAead(salt), salt, chunks)[..cut]), end) == (out, err)
    ensures CutOutcome(c.newAead(salt), |salt|, chunks, cut, end, out, err)
  {
    hide ToInt, ToByte, Nonce, PutUint16, GetUint16;
    if cut < |salt| {
      DecodeShortSalt(c, Wire(c.newAead(salt), salt, chunks)[..cut], end);
      CutOutcomeOfSalt(c.newAead(salt), |salt|, chunks, cut, end);
    } else {
      TruncationAfterSalt(c, salt, chunks, cut, end, out, err);
    }
  }

  lemma TruncationAfterSalt(c: Cipher, salt: Bytes, chunks: seq<Bytes>, cut: nat, end: Err, out: seq<Bytes>, err: Err)
    requires |salt| == c.saltSize && ValidChunks(chunks) && NoWrap(c.newAead(salt), |chunks|)
    requires |salt| <= cut <= |Wire(c.newAead(salt), salt, chunks)|
    requires Decode(c, Fresh(Wire(c.newAead(salt), salt, chunks)[..cut]), end) == (out, err)
    ensures CutOutcome(c.newAead(salt), |salt|, chunks, cut, end, out, err)
  {
    hide ToInt, ToByte, Nonce, PutUint16, GetUint16;
    hide Decode, Wire, Blocks, CompleteChunks, Boundary;
    var a := c.newAead(salt);
    WireSize(a, salt, chunks);
    DecodeCutWire(c, salt, chunks, cut, end);
    var n := CompleteChunks(a, 0, chunks, cut - |salt|);
    assert out == chunks[..n];
    assert err == if cut - |salt| == |Blocks(a, 0, chunks[..n])| then end else Broken(end);
    CutOutcomeOfBlocks(a, |salt|, chunks, cut, end);
  }

  lemma DecodeCutWire(c: Cipher, salt: Bytes, chunks: seq<Bytes>, cut: nat, end: Err)
    requires |salt| == c.saltSize && ValidChunks(chunks) && NoWrap(c.newAead(salt), |chunks|)
    requires |salt| <= cut <= |Wire(c.newAead(salt), salt, chunks)|
    ensures var a := c.newAead(salt);
      var n := CompleteChunks(a, 0, chunks, cut - |salt|);
      Decode(c, Fresh(Wire(a, salt, chunks)[..cut]), end)
      == (chunks[..n], if cut - |salt| == |Blocks(a, 0, chunks[..n])| then end else Broken(end))
  {
    hide ToInt, ToByte, Nonce, PutUint16, GetUint16;
    hide Blocks, CompleteChunks, LawfulAead;
    var a := c.newAead(salt);
    SaltOnceFirst(a, salt, chunks);
    var rest := Blocks(a, 0, chunks)[..cut - |salt|];
    assert Wire(a, salt, chunks)[..cut] == salt + rest;
    DecodeAfterSalt(c, salt, rest, end);
    DecodeCutBlocks(c, a, 0, chunks, cut - |salt|, end);
  }

  lemma WireSize(a: Aead, salt: Bytes, chunks: seq<Bytes>)
    requires NoWrap(a, |chunks|)
    ensures |Wire(a, salt, chunks)| <= |salt| + |Blocks(a, 0, chunks)|
  {
    SaltOnceFirst(a, salt, chunks);
  }

  lemma CutOutcomeOfSalt(a: Aead, saltSize: nat, chunks: seq<Bytes>, cut: nat, end: Err)
    requires cut < saltSize
    ensures CutOutcome(a, saltSize, chunks, cut, end, [], if cut == 0 then end else Broken(end))
  {
    assert chunks[..0] == [];
  }

  lemma CutOutcomeOfBlocks(a: Aead, saltSize: nat, chunks: seq<Bytes>, cut: nat, end: Err)
    requires 0 < saltSize <= cut <= saltSize + |Blocks(a, 0, chunks)|
    ensures var n := CompleteChunks(a, 0, chunks, cut - saltSize);
      var err := if cut - saltSize == |Blocks(a, 0, chunks[..n])| then end else Broken(end);
      CutOutcome(a, saltSize, chunks, cut, end, chunks[..n], err)
  {
    CompleteChunksIsLargest(a, 0, chunks, cut - saltSize);
  }

  /** Round trip: the reader gets back exactly the chunks that were sent. */
  lemma RoundTrip(c: Cipher, salt: Bytes, chunks: seq<Bytes>, end: Err)
    requires |salt| == c.saltSize && ValidChunks(chunks) && NoWrap(c.newAead(salt), |chunks|)
    ensures Decode(c, Fresh(Wire(c.newAead(salt), salt, chunks)), end) == (chunks, end)
  {
    hide ToInt, ToByte, Nonce, PutUint16, GetUint16, LawfulAead, ReadChunk, Blocks, CompleteChunks, Decode;
    if chunks == [] {
      DecodeShortSalt(c, [], end);
    } else {
      RoundTripOfSome(c, salt, chunks, end);
    }
  }

  lemma RoundTripOfSome(c: Cipher, salt: Bytes, chunks: seq<Bytes>, end: Err)
    requires |salt| == c.saltSize && ValidChunks(chunks) && NoWrap(c.newAead(salt), |chunks|) && chunks != []
    ensures Decode(c, Fresh(Wire(c.newAead(salt), salt, chunks)), end) == (chunks, end)
  {
    hide ToInt, ToByte, Nonce, PutUint16, GetUint16, LawfulAead, Blocks, CompleteChunks, Decode, Wire;
    var a := c.newAead(salt);
    SaltOnceFirst(a, salt, chunks);
    var n := |Blocks(a, 0, chunks)|;
    DecodeCutWire(c, salt, chunks, |salt| + n, end);
    assert Wire(a, salt, chunks)[..|salt| + n] == Wire(a, salt, chunks);
    CompleteAll(a, 0, chunks, n);
  }

  lemma CompleteAll(a: Aead, k: nat, chunks: seq<Bytes>, n: nat)
    requires n == |Blocks(a, k, chunks)|
    ensures CompleteChunks(a, k, chunks, n) == |chunks|
    ensures chunks[..|chunks|] == chunks
  {
    hide ToInt, ToByte, Nonce, PutUint16, GetUint16, ChunkBytes, Blocks, CompleteChunks;
    CompleteChunksIsLargest(a, k, chunks, n);
    var m := CompleteChunks(a, k, chunks, n);
    if m < |chunks| {
      BlocksPrefix(a, k, chunks, m + 1);
    }
  }

  lemma {:induction false} BlocksPrefix(a: Aead, k: nat, chunks: seq<Bytes>, n: nat)
    requires n <= |chunks|
    ensures |Blocks(a, k, chunks[..n])| <= |Blocks(a, k, chunks)|
    decreases |chunks|
  {
    hide ToInt, ToByte, Nonce, PutUint16, GetUint16;
    if n > 0 {
      assert chunks[..n][1..] == chunks[1..][..n - 1];
      BlocksPrefix(a, k + 2, chunks[1..], n - 1);
    }
  }

  // ------------------------------------------------------------ forged blocks

  /** Does the block at the front of these bytes, n bytes long, open under nonce k? */
  ghost predicate FrontOpens(a: Aead, k: nat, bytes: Bytes, n: nat) {
    |bytes| >= n && a.open(BlockNonce(a, k), bytes[..n]).Some?
  }

  /** The size of the payload block that the first n bytes announce. */
  ghost function Announced(a: Aead, k: nat, bytes: Bytes, n: nat): nat
    requires LawfulAead(a) && n == 2 + a.overhead && FrontOpens(a, k, bytes, n)
  {
    MaskLength(GetUint16(a.open(BlockNonce(a, k), bytes[..n]).value)) + a.overhead
  }

  /**
   * A chunk is delivered if and only if both blocks are there and open, the
   * length under this nonce and the payload under the next one, and then it is
   * what the second one opens to. A full block that does not open is refused.
   */
  lemma ChunkIffBothOpen(s: ReaderState, end: Err)
    requires s.Keyed? && ValidState(s)
    ensures var a, k, h := s.aead, s.block, 2 + s.aead.overhead;
      var (m, s') := NextChunk(s, end);
      if |s.bytes| < h then
        m == Failed(if s.bytes == [] then end else Broken(end)) && s' == Keyed(a, k, [])
      else if !FrontOpens(a, k, s.bytes, h) then
        m == Failed(Decrypt) && s' == Keyed(a, k + 1, s.bytes[h..])
      else
        var n := Announced(a, k, s.bytes, h);
        if |s.bytes| < h + n then
          && m == Failed(Broken(end))
          && s' == Keyed(a, k + 1, [])
        else
          && s' == Keyed(a, k + 2, s.bytes[h + n..])
          && m == match a.open(BlockNonce(a, k + 1), s.bytes[h..h + n])
             case None => Failed(Decrypt)
             case Some(p) => Opened(p)
  {
    hide LawfulAead, BlockNonce, GetUint16, MaskLength;
    var a, k, h := s.aead, s.block, 2 + s.aead.overhead;
    if |s.bytes| >= h && FrontOpens(a, k, s.bytes, h) {
      OpenedLength(a, BlockNonce(a, k), s.bytes[..h]);
      var n, rest := Announced(a, k, s.bytes, h), s.bytes[h..];
      if |rest| >= n {
        assert rest[..n] == s.bytes[h..h + n] && rest[n..] == s.bytes[h + n..];
      }
    }
  }

  /** Whole chunks at the front are decoded whatever follows them. */
  lemma {:induction false} DecodeBlocks(c: CipherSpec, a: Aead, k: nat, chunks: seq<Bytes>, rest: Bytes, end: Err)
    requires Supported(c) && LawfulAead(a) && ValidChunks(chunks)
    ensures var (out, e) := Decode(c, Keyed(a, k + 2 * |chunks|, rest), end);
      Decode(c, Keyed(a, k, Blocks(a, k, chunks) + rest), end) == (chunks + out, e)
    decreases |chunks|
  {
    hide ToInt, ToByte, Nonce, PutUint16, GetUint16, ChunkBytes, Decode, LawfulAead;
    if chunks == [] {
      assert Blocks(a, k, chunks) + rest == rest;
      var out := Decode(c, Keyed(a, k, rest), end).0;
      assert chunks + out == out;
    } else {
      var first, more := ChunkBytes(a, k, chunks[0]), Blocks(a, k + 2, chunks[1..]);
      assert Blocks(a, k, chunks) + rest == first + (more + rest);
      DecodeChunk(c, a, k, chunks[0], more + rest, end);
      DecodeBlocks(c, a, k + 2, chunks[1..], rest, end);
      assert k + 2 + 2 * |chunks[1..]| == k + 2 * |chunks|;
      var out := Decode(c, Keyed(a, k + 2 * |chunks|, rest), end).0;
      assert [chunks[0]] + (chunks[1..] + out) == chunks + out;
    }
  }

  lemma {:induction false} BlocksAt(a: Aead, k: nat, chunks: seq<Bytes>, i: nat)
    requires i < |chunks|
    ensures var j := k + 2 * i;
      Blocks(a, k, chunks)
      == Blocks(a, k, chunks[..i]) + (ChunkBytes(a, j, chunks[i]) + Blocks(a, j + 2, chunks[i + 1..]))
    decreases |chunks|
  {
    hide ChunkBytes;
    if i > 0 {
      BlocksAt(a, k + 2, chunks[1..], i - 1);
      assert chunks[..i][1..] == chunks[1..][..i - 1] && chunks[1..][i..] == chunks[i + 1..];
    }
  }

  /** Size and nonce index of the length block or the payload block of the i-th chunk, and where it starts. */
  ghost function BlockSize(a: Aead, chunks: seq<Bytes>, i: nat, second: bool): nat
    requires i < |chunks|
  {
    (if second then |chunks[i]| else 2) + a.overhead
  }

  ghost function BlockStart(a: Aead, saltSize: nat, chunks: seq<Bytes>, i: nat, second: bool): nat
    requires i < |chunks|
  {
    Boundary(a, saltSize, chunks, i) + if second then 2 + a.overhead else 0
  }

  /** A forged block in place of one of a chunk's own ends the chunk with the error of authentication. */
  lemma ForgedBlock(a: Aead, k: nat, payload: Bytes, second: bool, forged: Bytes, rest: Bytes, end: Err)
    requires LawfulAead(a) && |payload| <= MAX_PAYLOAD
    requires |forged| == (if second then |payload| else 2) + a.overhead
    requires a.open(BlockNonce(a, if second then k + 1 else k), forged).None?
    ensures var front := if second then a.seal(BlockNonce(a, k), PutUint16(|payload|)) else [];
      NextChunk(Keyed(a, k, front + (forged + rest)), end).0 == Failed(Decrypt)
  {
    hide ToInt, ToByte, Nonce, PutUint16, GetUint16, NextChunk, MaskLength;
    var front := if second then a.seal(BlockNonce(a, k), PutUint16(|payload|)) else [];
    var bytes, h := front + (forged + rest), 2 + a.overhead;
    ChunkIffBothOpen(Keyed(a, k, bytes), end);
    if second {
      PutGet(|payload|);
      assert bytes[..h] == front && bytes[h..h + |forged|] == forged;
    } else {
      assert bytes[..h] == forged;
    }
  }

  /**
   * A writer's stream in which one block has been replaced by bytes that do not
   * open: exactly the chunks before it are delivered, and then the error of
   * authentication.
   */
  lemma Tampering(c: Cipher, salt: Bytes, chunks: seq<Bytes>, i: nat, second: bool, forged: Bytes, end: Err)
    requires |salt| == c.saltSize && ValidChunks(chunks) && NoWrap(c.newAead(salt), |chunks|) && i < |chunks|
    requires |forged| == BlockSize(c.newAead(salt), chunks, i, second)
    requires c.newAead(salt).open(BlockNonce(c.newAead(salt), if second then 2 * i + 1 else 2 * i), forged).None?
    ensures var wire, p := Wire(c.newAead(salt), salt, chunks), BlockStart(c.newAead(salt), |salt|, chunks, i, second);
      && p + |forged| <= |wire|
      && Decode(c, Fresh(wire[..p] + (forged + wire[p + |forged|..])), end) == (chunks[..i], Decrypt)
  {
    hide ToInt, ToByte, Nonce, PutUint16, GetUint16, NextChunk, Wire, Blocks, Decode, NoWrap, BlockSize, BlockStart;
    var a := c.newAead(salt);
    var before, front, block, rest := AroundBlock(a, salt, chunks, i, second);
    Splice(salt + before + front, block, rest, forged);
    var stream := before + (front + (forged + rest));
    assert salt + before + front + (forged + rest) == salt + stream;
    DecodeAfterSalt(c, salt, stream, end);
    DecodeBlocks(c, a, 0, chunks[..i], front + (forged + rest), end);
    assert |forged| == (if second then |chunks[i]| else 2) + a.overhead;
    ForgedBlock(a, 2 * i, chunks[i], second, forged, rest, end);
    DecodeFailed(c, Keyed(a, 2 * i, front + (forged + rest)), end, Decrypt);
    assert chunks[..i] + [] == chunks[..i];
  }

  /** What is on the wire before, in and behind one block. */
  lemma AroundBlock(a: Aead, salt: Bytes, chunks: seq<Bytes>, i: nat, second: bool)
    returns (before: Bytes, front: Bytes, block: Bytes, rest: Bytes)
    requires LawfulAead(a) && ValidChunks(chunks) && NoWrap(a, |chunks|) && i < |chunks|
    ensures Wire(a, salt, chunks) == (salt + before + front) + (block + rest)
    ensures |block| == BlockSize(a, chunks, i, second) == (if second then |chunks[i]| else 2) + a.overhead
    ensures |salt + before + front| == BlockStart(a, |salt|, chunks, i, second)
    ensures before == Blocks(a, 0, chunks[..i])
    ensures front == if second then a.seal(BlockNonce(a, 2 * i), PutUint16(|chunks[i]|)) else []
  {
    hide ToInt, ToByte, Nonce, PutUint16, Wire, Blocks, NoWrap;
    SaltOnceFirst(a, salt, chunks);
    BlocksAt(a, 0, chunks, i);
    var b1, b2 := a.seal(BlockNonce(a, 2 * i), PutUint16(|chunks[i]|)), a.seal(BlockNonce(a, 2 * i + 1), chunks[i]);
    var after := Blocks(a, 2 * i + 2, chunks[i + 1..]);
    before := Blocks(a, 0, chunks[..i]);
    if second {
      front, block, rest := b1, b2, after;
    } else {
      front, block, rest := [], b1, b2 + after;
    }
    assert salt + (before + (b1 + b2 + after)) == (salt + before + front) + (block + rest);
  }

  lemma Splice(x: Bytes, y: Bytes, z: Bytes, f: Bytes)
    requires |f| == |y|
    ensures (x + (y + z))[..|x|] == x && (x + (y + z))[|x| + |f|..] == z
  {
  }

  /** There are such bytes: any block of the toy AEAD with one bit of its tag flipped. */
  lemma FlippedTagDoesNotOpen(k: nat, plaintext: Bytes)
    ensures var a := ToyAead();
      var sealed := a.seal(BlockNonce(a, k), plaintext);
      var last := |sealed| - 1;
      a.open(BlockNonce(a, k), sealed[last := sealed[last] ^ 1]).None?
  {
    var a := ToyAead();
    var n := BlockNonce(a, k);
    var sealed := a.seal(n, plaintext);
    var last := |sealed| - 1;
    var forged := sealed[last := sealed[last] ^ 1];
    assert sealed[last] ^ 1 != sealed[last];
    assert forged[|forged| - TAG_SIZE..][TAG_SIZE - 1] == forged[last];
    assert ([0, 0, 0, 0] + n)[TAG_SIZE - 1] == sealed[last];
  }

  // ------------------------------------------------------- empty chunks, errors

  /** Without empty chunks ahead, the next chunk is not empty, and there are none ahead after it. */
  lemma NoneEmptyStep(c: CipherSpec, s: ReaderState, end: Err, p: Bytes, s': ReaderState)
    requires Supported(c) && ValidState(s) && ReadChunk(c, s, end) == (Opened(p), s')
    requires NoneEmpty(Decode(c, s, end).0)
    ensures p != [] && ValidState(s') && NoneEmpty(Decode(c, s', end).0)
  {
    hide ReadChunk;
    DecodeOpened(c, s, end, p, s');
    var all, rest := Decode(c, s, end).0, Decode(c, s', end).0;
    assert all[0] == p;
    assert forall i :: 0 <= i < |rest| ==> rest[i] == all[i + 1];
  }

  /** A peer may send an empty chunk; a reader then has nothing to deliver, and no error. */
  lemma EmptyChunkStream(c: Cipher, salt: Bytes)
    requires |salt| == c.saltSize
    ensures ReadChunk(c, Fresh(salt + ChunkBytes(c.newAead(salt), 0, [])), Eof).0 == Opened([])
  {
    hide Nonce, PutUint16, GetUint16, ChunkBytes;
    var a := c.newAead(salt);
    var rest := ChunkBytes(a, 0, []);
    assert (salt + rest)[..|salt|] == salt && (salt + rest)[|salt|..] == rest;
    assert rest + [] == rest;
    ReadBack(a, 0, [], [], Eof);
  }

  /** The result of the read that follows n others. */
  function ReadAfter(c: CipherSpec, s: ReaderState, end: Err, n: nat): Message
    requires Supported(c) && ValidState(s)
    decreases n
  {
    var (m, s') := ReadChunk(c, s, end);
    if n == 0 then m else ReadAfter(c, s', end, n - 1)
  }

  /** A block that cannot be read uses up the bytes; one that does not authenticate uses up its own. */
  lemma FailedBlockDrains(a: Aead, k: nat, bytes: Bytes, n: nat, end: Err)
    requires n > 0 && ReadMessage(a, k, bytes, n, end).0.Failed?
    ensures var (m, _, rest) := ReadMessage(a, k, bytes, n, end);
      && (m.err != Decrypt ==> rest == [])
      && (m.err == Decrypt && end != Decrypt ==> |rest| < |bytes|)
  {
  }

  lemma FailedChunkDrains(s: ReaderState, end: Err, e: Err)
    requires s.Keyed? && ValidState(s) && NextChunk(s, end).0 == Failed(e)
    ensures e != Decrypt ==> NextChunk(s, end).1.bytes == []
    ensures e == Decrypt && end != Decrypt ==> |NextChunk(s, end).1.bytes| < |s.bytes|
  {
    hide ToInt, ToByte, Nonce, PutUint16, GetUint16, ReadMessage, MaskLength;
    var a := s.aead;
    var (size, k, rest) := ReadMessage(a, s.block, s.bytes, 2 + a.overhead, end);
    if size.Failed? {
      FailedBlockDrains(a, s.block, s.bytes, 2 + a.overhead, end);
    } else {
      OpenedBlockShrinks(a, s.block, s.bytes, 2 + a.overhead, end);
      var n := MaskLength(GetUint16(size.plaintext)) + a.overhead;
      if n > 0 {
        FailedBlockDrains(a, k, rest, n, end);
      } else {
        EmptyBlock(a, k, rest, end);
      }
    }
  }

  lemma OpenedBlockShrinks(a: Aead, k: nat, bytes: Bytes, n: nat, end: Err)
    requires n > 0 && ReadMessage(a, k, bytes, n, end).0.Opened?
    ensures |ReadMessage(a, k, bytes, n, end).2| < |bytes|
    ensures LawfulAead(a) && n >= a.overhead ==> |ReadMessage(a, k, bytes, n, end).0.plaintext| == n - a.overhead
  {
  }

  lemma EmptyBlock(a: Aead, k: nat, bytes: Bytes, end: Err)
    ensures var (m, _, rest) := ReadMessage(a, k, bytes, 0, end);
      rest == bytes && (m.Failed? ==> m.err == Decrypt)
  {
  }

  /** A failed read has used up the source, unless it was authentication that failed. */
  lemma FailedReadDrains(c: CipherSpec, s: ReaderState, end: Err, e: Err)
    requires Supported(c) && ValidState(s) && ReadChunk(c, s, end).0 == Failed(e)
    ensures e != Decrypt ==> ReadChunk(c, s, end).1.bytes == []
    ensures e == Decrypt && end != Decrypt ==> |ReadChunk(c, s, end).1.bytes| < |s.bytes|
  {
    hide ToInt, ToByte, Nonce, PutUint16, GetUint16, NextChunk, LawfulAead;
    var (err, s') := Init(c, s, end);
    if err.None? {
      FailedChunkDrains(s', end, e);
    }
  }

  /** When the source is used up, every read ends with the error of the source. */
  lemma {:induction false} DrainedFails(c: CipherSpec, s: ReaderState, end: Err, n: nat)
    requires Supported(c) && ValidState(s) && s.bytes == []
    ensures ReadAfter(c, s, end, n) == Failed(end)
    decreases n
  {
    hide ToInt, ToByte, Nonce, PutUint16, GetUint16, LawfulAead;
    var (m, s') := ReadChunk(c, s, end);
    assert m == Failed(end) && s'.bytes == [];
    if n > 0 {
      DrainedFails(c, s', end, n - 1);
    }
  }

  lemma ThenDrained(c: CipherSpec, s: ReaderState, end: Err)
    requires Supported(c) && ValidState(s) && ReadChunk(c, s, end).1.bytes == []
    ensures exists n: nat :: ReadAfter(c, s, end, n) == Failed(end)
  {
    hide ReadChunk;
    var s' := ReadChunk(c, s, end).1;
    DrainedFails(c, s', end, 0);
    var n: nat := 1;
    assert ReadAfter(c, s, end, n) == ReadAfter(c, s', end, n - 1);
  }

  /** Failing authentication does not go on for ever: each failure consumes bytes. */
  lemma {:induction false} DecryptErrorsEnd(c: CipherSpec, s: ReaderState, end: Err) returns (n: nat)
    requires Supported(c) && ValidState(s) && end != Decrypt
    ensures ReadAfter(c, s, end, n) != Failed(Decrypt)
    decreases |s.bytes|
  {
    hide ReadChunk;
    var (m, s') := ReadChunk(c, s, end);
    n := 0;
    if m == Failed(Decrypt) {
      FailedReadDrains(c, s, end, Decrypt);
      n := DecryptErrorsEnd(c, s', end);
      n := n + 1;
    }
  }

  /**
   * Which errors are final: after a failed read every further read fails with
   * the same error if and only if it is the error with which the source ends.
   */
  lemma ErrorRepeats(c: CipherSpec, s: ReaderState, end: Err, e: Err)
    requires Supported(c) && ValidState(s) && end != Decrypt && ReadChunk(c, s, end).0 == Failed(e)
    ensures (forall n :: ReadAfter(c, s, end, n) == Failed(e)) <==> e == end
  {
    hide ReadChunk;
    FailedReadDrains(c, s, end, e);
    var s' := ReadChunk(c, s, end).1;
    if e == Decrypt {
      var n := DecryptErrorsEnd(c, s, end);
      assert ReadAfter(c, s, end, n) != Failed(e);
    } else if e == end {
      forall n: nat ensures ReadAfter(c, s, end, n) == Failed(e) {
        if n > 0 {
          DrainedFails(c, s', end, n - 1);
        }
      }
    } else {
      ThenDrained(c, s, end);
    }
  }

  /** A block that does not authenticate is skipped: the next read may succeed. */
  lemma ReadsOnAfterGarbage(a: Aead, k: nat, garbage: Bytes, payload: Bytes, rest: Bytes, end: Err)
    requires LawfulAead(a) && |payload| <= MAX_PAYLOAD
    requires |garbage| == 2 + a.overhead && a.open(BlockNonce(a, k), garbage).None?
    ensures var (m, s) := NextChunk(Keyed(a, k, garbage + (ChunkBytes(a, k + 1, payload) + rest)), end);
      m == Failed(Decrypt) && NextChunk(s, end).0 == Opened(payload)
  {
    ReadBack(a, k + 1, payload, rest, end);
    hide Nonce, PutUint16, GetUint16, ChunkBytes;
    var more := ChunkBytes(a, k + 1, payload) + rest;
    assert (garbage + more)[..|garbage|] == garbage && (garbage + more)[|garbage|..] == more;
  }

  /** There is such a block: 18 bytes that are 1, for the toy AEAD. */
  lemma GarbageExists()
    ensures var a, g := ToyAead(), seq(18, i => 1 as byte);
      |g| == 2 + a.overhead && a.open(BlockNonce(a, 0), g).None?
  {
    var a, g := ToyAead(), seq(18, i => 1 as byte);
    assert g[2..][0] == 1;
  }

  /** A salt that is cut off is reported once as such, and from then on as a clean end. */
  lemma CutSaltThenCleanEnd(c: Cipher, bytes: Bytes)
    requires 0 < |bytes| < c.saltSize
    ensures ReadAfter(c, Fresh(bytes), Eof, 0) == Failed(UnexpectedEof)
    ensures ReadAfter(c, Fresh(bytes), Eof, 1) == Failed(Eof)
  {
    var s' := ReadChunk(c, Fresh(bytes), Eof).1;
    DrainedFails(c, s', Eof, 0);
  }
}
