/**
 * UDP packets: packing and unpacking in place, the layout of the server's
 * packet buffer, the client's half, and the search for the access key.
 */
module Packet {
  import opened ByteSeqs
  import opened Crypto
  import opened StreamFormat
  import opened Io
  import opened SlicePool
  import opened CipherList
  import opened KeySearch

  const SERVER_BUFFER_SIZE: nat := 65536
  const CLIENT_BUFFER_SIZE: nat := 16384

  // -------------------------------------------------------------------- addresses

  // Address types of section 5 of RFC 1928.
  const ATYP_IPV4: byte := 1
  const ATYP_DOMAIN: byte := 3
  const ATYP_IPV6: byte := 4

  /** The length of the longest IP address header, that of IPv6. */
  const MAX_ADDR_LEN: nat := 19

  /** The address at the beginning of a plaintext: type, address, two bytes of port. */
  function SplitAddr(b: Bytes): (r: Option<Bytes>)
    ensures r.Some? ==> r.value <= b
  {
    if |b| < 1 then None
    else
      var n :=
        if b[0] == ATYP_IPV4 then 1 + 4 + 2
        else if b[0] == ATYP_IPV6 then 1 + 16 + 2
        else if b[0] == ATYP_DOMAIN && |b| >= 2 then 1 + 1 + ToInt(b[1]) + 2
        else |b| + 1;
      if |b| < n then None else Some(b[..n])
  }

  /** A complete address and nothing else. */
  predicate IsAddr(a: Bytes) {
    SplitAddr(a) == Some(a)
  }

  predicate IsIpAddr(a: Bytes) {
    IsAddr(a) && a[0] != ATYP_DOMAIN
  }

  /** An address: its type, the address itself, and two bytes of port. */
  ghost predicate HasForm(a: Bytes) {
    exists head, host, port :: MadeOf(a, head, host, port)
  }

  ghost predicate MadeOf(a: Bytes, head: Bytes, host: Bytes, port: Bytes) {
    a == head + host + port && |port| == 2 && HasHead(head, |host|)
  }

  /** In front of an IP address stands its type alone, in front of a name its length as well. */
  ghost predicate HasHead(head: Bytes, size: nat) {
    || (head == [1] && size == 4)
    || (head == [4] && size == 16)
    || (|head| == 2 && head[0] == 3 && ToInt(head[1]) == size)
  }

  ghost predicate HasSize(a: Bytes) {
    |a| >= 2 && ((a[0] == 1 && |a| == 7) || (a[0] == 4 && |a| == 19) || (a[0] == 3 && |a| == ToInt(a[1]) + 4))
  }

  lemma SizeOfForm(a: Bytes, head: Bytes, host: Bytes, port: Bytes)
    requires MadeOf(a, head, host, port)
    ensures HasSize(a)
  {
    hide ToInt;
    assert a[0] == head[0] && (|head| == 2 ==> a[1] == head[1]);
  }

  lemma OneHead(a: Bytes)
    requires |a| >= 3 && HasHead([a[0]], |a| - 3)
    ensures MadeOf(a, [a[0]], a[1..|a| - 2], a[|a| - 2..])
  {
  }

  lemma TwoHead(a: Bytes)
    requires |a| >= 4 && HasHead([a[0], a[1]], |a| - 4)
    ensures MadeOf(a, [a[0], a[1]], a[2..|a| - 2], a[|a| - 2..])
  {
  }

  lemma FormOfSize(a: Bytes)
    requires HasSize(a)
    ensures HasForm(a)
  {
    hide ToInt, MadeOf;
    if a[0] == 3 {
      TwoHead(a);
    } else {
      OneHead(a);
    }
  }

  lemma FormIffSize(a: Bytes)
    ensures HasForm(a) <==> HasSize(a)
  {
    hide MadeOf, HasSize;
    if HasForm(a) {
      var head, host, port :| MadeOf(a, head, host, port);
      SizeOfForm(a, head, host, port);
    }
    if HasSize(a) {
      FormOfSize(a);
    }
  }

  /** What is split off is a prefix of one of these forms, of which there is at most one. */
  lemma SplitIffForm(b: Bytes, a: Bytes)
    ensures SplitAddr(b) == Some(a) <==> a <= b && HasForm(a)
  {
    hide HasForm, ToInt;
    FormIffSize(a);
    if a <= b && HasForm(a) {
      assert a[0] == b[0] && a[1] == b[1] && b[..|a|] == a;
    }
    if SplitAddr(b).Some? {
      FormIffSize(SplitAddr(b).value);
    }
  }

  /** An address can be told apart from whatever follows it. */
  lemma AddrIsPrefixFree(a: Bytes, body: Bytes)
    requires IsAddr(a)
    ensures SplitAddr(a + body) == Some(a)
    ensures (a + body)[|a|..] == body
    ensures IsIpAddr(a) ==> |a| in {7, 19}
  {
    hide ToInt;
    assert (a + body)[..|a|] == a;
  }

  // ------------------------------------------------------------ packing, unpacking

  /** Whatever a failed decryption leaves behind. */
  method Clobber(buf: array<byte>, lo: nat)
    requires lo <= buf.Length
    modifies buf
    ensures forall i :: 0 <= i < lo ==> buf[i] == old(buf[i])
  {
    for i := lo to buf.Length
      invariant forall j :: 0 <= j < lo ==> buf[j] == old(buf[j])
    {
      var b: byte := *;
      buf[i] := b;
    }
  }

  lemma StoredInTwo(d: Bytes, at: nat, m: nat, packet: Bytes)
    requires m <= |packet| && at + |packet| <= |d|
    requires d[at..at + m] == packet[..m] && d[at + m..at + |packet|] == packet[m..]
    ensures d[at..at + |packet|] == packet
  {
    assert d[at..at + |packet|] == d[at..at + m] + d[at + m..at + |packet|];
  }

  /**
   * Is it safe to encrypt src[plo..phi] into dst[dlo..]? The two may be the same
   * memory if the text is where its ciphertext goes, or wholly before or behind
   * the packet, or if nothing is encrypted at all.
   */
  predicate MayOverlap(dst: array<byte>, dlo: nat, src: array<byte>, plo: nat, phi: nat, c: Cipher)
    requires plo <= phi
  {
    var end := dlo + c.saltSize + (phi - plo) + c.tagSize;
    src != dst || plo == dlo + c.saltSize || phi <= dlo || end <= plo || plo == phi || end > dst.Length
  }

  /** Encrypts src[plo..phi] into dst[dlo..]. */
  method Pack(dst: array<byte>, dlo: nat, src: array<byte>, plo: nat, phi: nat, c: Cipher, salt: Option<Bytes>)
    returns (n: nat, err: Option<Err>)
    requires dlo <= dst.Length && plo <= phi <= src.Length
    requires salt.Some? ==> |salt.value| == c.saltSize
    requires MayOverlap(dst, dlo, src, plo, phi, c)  // otherwise: panic or corruption
    modifies dst
    ensures err ==
            if dlo + c.saltSize > dst.Length then Some(ShortBuffer)
            else if salt.None? then Some(SaltFailed)
            else if dlo + c.saltSize + (phi - plo) + c.tagSize > dst.Length then Some(ShortBuffer)
            else None
    ensures err.None? ==>
              && n == c.saltSize + (phi - plo) + c.tagSize
              && dst[dlo..dlo + n] == Packed(c, salt.value, old(src[plo..phi]))
    // On success only the packet is written, on failure at most the salt.
    ensures err.None? ==> forall i :: 0 <= i < dst.Length && !(dlo <= i < dlo + n) ==> dst[i] == old(dst[i])
    ensures err.Some? ==> forall i :: 0 <= i < dst.Length && !(dlo <= i < dlo + c.saltSize) ==> dst[i] == old(dst[i])
  {
    hide Supported, LawfulAead, Packed;
    if dst.Length - dlo < c.saltSize {
      return 0, Some(ShortBuffer);
    }
    if salt.None? {
      return 0, Some(SaltFailed);
    }
    Store(dst, dlo, salt.value);
    if dst.Length - dlo < c.saltSize + (phi - plo) + c.tagSize {
      return 0, Some(ShortBuffer);
    }
    assert src[plo..phi] == old(src[plo..phi]);
    n := SealBehindSalt(dst, dlo, c, salt.value, src[plo..phi]);
    err := None;
  }

  /** The salt is in place; the sealed text follows it. */
  method SealBehindSalt(dst: array<byte>, at: nat, c: Cipher, salt: Bytes, plaintext: Bytes) returns (n: nat)
    requires |salt| == c.saltSize && at + c.saltSize + |plaintext| + c.tagSize <= dst.Length
    requires dst[at..at + c.saltSize] == salt
    modifies dst
    ensures n == c.saltSize + |plaintext| + c.tagSize && dst[at..at + n] == Packed(c, salt, plaintext)
    ensures forall i :: 0 <= i < dst.Length && !(at <= i < at + n) ==> dst[i] == old(dst[i])
  {
    hide Supported, LawfulAead, Packed;
    var packet := Packed(c, salt, plaintext);
    PackedSalt(c, salt, plaintext);
    Store(dst, at + c.saltSize, packet[c.saltSize..]);
    assert dst[at..at + c.saltSize] == salt;
    StoredInTwo(dst[..], at, c.saltSize, packet);
    n := |packet|;
  }

  lemma PackedSalt(c: Cipher, salt: Bytes, plaintext: Bytes)
    requires |salt| == c.saltSize
    ensures Packed(c, salt, plaintext)[..c.saltSize] == salt
  {
  }

  /** Room for plaintext: in place it is what lies behind the salt. */
  function Room(dst: array?<byte>, pkt: array<byte>, c: Cipher): nat {
    if dst != null then dst.Length else if c.saltSize <= pkt.Length then pkt.Length - c.saltSize else 0
  }

  /** Decrypts the packet pkt[..n] into dst or, if that is null, in place; the plaintext starts at `lo`. */
  method Unpack(dst: array?<byte>, pkt: array<byte>, n: nat, c: Cipher) returns (r: UnpackResult, lo: nat)
    requires n <= pkt.Length
    requires dst != pkt  // they must not overlap
    modifies if dst == null then pkt else dst
    ensures r == Unpacked(c, old(pkt[..n]), Room(dst, pkt, c))
    ensures r.Plain? ==> OpensPacket(c, old(pkt[..n]), r.text)
    ensures dst == null ==> r != Rejected(ShortBuffer)
    ensures dst == null ==> forall i :: 0 <= i < c.saltSize && i < pkt.Length ==> pkt[i] == old(pkt[i])
    ensures r.Plain? ==>
              var buf := if dst == null then pkt else dst;
              lo == (if dst == null then c.saltSize else 0)
              && lo + |r.text| <= buf.Length && buf[lo..lo + |r.text|] == r.text
  {
    hide Supported, LawfulAead, OpensPacket;
    r, lo := Unpacked(c, pkt[..n], Room(dst, pkt, c)), 0;
    if r.Plain? {
      PlainOpens(c, pkt[..n], Room(dst, pkt, c));
    }
    if n < c.saltSize {
      return;
    }
    var buf := dst;
    if dst == null {
      buf, lo := pkt, c.saltSize;
    }
    Clobber(buf, lo);
    if r.Plain? {
      Store(buf, lo, r.text);
    }
  }

  // ------------------------------------------------------------------ access key

  /** Searches for the key of an upstream packet; failed trials overwrite dst only. */
  method FindAccessKeyUDP(clientIP: Option<Ip>, dst: array<byte>, src: array<byte>, n: nat, keys: KeyList,
      meanwhile: seq<Event<CipherEntry>>)
    returns (entry: CipherEntry?, text: Bytes, ghost order: seq<CipherEntry>)
    requires dst != src && n <= src.Length
    modifies dst, keys, keys.list, Marked(meanwhile)
    ensures src[..] == old(src[..])
    ensures multiset(order) == multiset(old(keys.list))
    ensures order == old(Partition(keys.list, keys.Flags(clientIP)))
    // A packet that no listed key opens is refused; otherwise its own key opens it to this text.
    ensures entry == null <==> NoneOpens(old(keys.list), old(src[..n]), dst.Length)
    ensures entry != null ==> entry in old(keys.list) && OpensPacket(entry.cipher, old(src[..n]), text)
    ensures match FirstMatch(order, Trial.Packet(old(src[..n]), dst.Length))
      case None => entry == null && keys.list == After(old(keys.list), meanwhile)
      case Some(i) =>
        && entry == order[i]
        && Unpacked(order[i].cipher, old(src[..n]), dst.Length) == Plain(text)
        && |text| <= dst.Length && dst[..|text|] == text
        && keys.list == MovedToFront(After(old(keys.list), meanwhile), order[i])
        && order[i].lastClientIP == clientIP
  {
    hide Supported, Unpacked, FirstMatch, Partition, MovedToFront, After, UsedBy, Opens, OpensPacket, NoneOpens;
    var ciphers := TakeSnapshot(clientIP, keys);
    FoundIffOpened(keys.list, ciphers, src[..n], dst.Length);
    keys.Others(meanwhile);
    order := ciphers;
    entry, text := TryEach(dst, src, n, ciphers);
    if entry != null {
      assert entry in multiset(ciphers);
      NoteUse(entry, clientIP, keys);
    }
  }

  /** Trial decryption over a snapshot: the first entry that opens the packet. */
  method TryEach(dst: array<byte>, src: array<byte>, n: nat, ciphers: seq<CipherEntry>)
    returns (entry: CipherEntry?, text: Bytes)
    requires dst != src && n <= src.Length
    modifies dst
    ensures entry != null ==> entry in ciphers && OpensPacket(entry.cipher, src[..n], text)
    ensures match FirstMatch(ciphers, Trial.Packet(src[..n], dst.Length))
      case None => entry == null
      case Some(i) =>
        && entry == ciphers[i]
        && Unpacked(ciphers[i].cipher, src[..n], dst.Length) == Plain(text)
        && |text| <= dst.Length && dst[..|text|] == text
  {
    hide Supported, Unpacked, FirstMatch, OpensPacket, Opens;
    ghost var t := Trial.Packet(src[..n], dst.Length);
    FirstMatchIsFirst(ciphers, t);
    for i := 0 to |ciphers|
      invariant forall j :: 0 <= j < i ==> !Opens(ciphers[j].cipher, t)
    {
      var e := ciphers[i];
      OpensIfPlain(e.cipher, src[..n], dst.Length);
      var r, lo := Unpack(dst, src, n, e.cipher);
      if r.Plain? {
        return e, r.text;
      }
    }
    return null, [];
  }

  // ------------------------------------------------------------------- downstream

  /**
   * One packet of `timedCopy`: the body is received behind room for the longest
   * header, the address goes right before it, and the salt before that:
   * the front of the packet stays unused for addresses that are shorter.
   * Everything fits, and is aligned for encryption in place, whatever the address.
   */
  method RelayDown(pkt: array<byte>, c: Cipher, datagram: Bytes, raddr: Bytes, salt: Option<Bytes>)
    returns (lo: nat, n: nat, err: Option<Err>)
    requires pkt.Length == SERVER_BUFFER_SIZE && IsIpAddr(raddr)
    requires salt.Some? ==> |salt.value| == c.saltSize
    modifies pkt
    ensures err.None? <==>
            salt.Some? && c.saltSize + MAX_ADDR_LEN + |datagram| + c.tagSize <= SERVER_BUFFER_SIZE
    ensures err.None? ==>
              && lo + n <= pkt.Length
              && pkt[lo..lo + n] == Packed(c, salt.value, raddr + datagram)
              && lo == if raddr[0] == ATYP_IPV6 then 0 else 12
  {
    hide Packed;
    assert c.saltSize <= MAX_SALT_SIZE;
    AddrIsPrefixFree(raddr, datagram);
    var bodyStart := c.saltSize + MAX_ADDR_LEN;
    var bodyLen := Min(|datagram|, pkt.Length - bodyStart);
    var addrStart := bodyStart - |raddr|;
    Receive(pkt, bodyStart, datagram[..bodyLen], raddr);
    lo := addrStart - c.saltSize;
    n, err := Pack(pkt, lo, pkt, addrStart, bodyStart + bodyLen, c, salt);
    assert err.None? ==> datagram[..bodyLen] == datagram;
  }

  /** The body arrives at its place and the address is put in front of it. */
  method Receive(pkt: array<byte>, bodyStart: nat, body: Bytes, raddr: Bytes)
    requires |raddr| <= bodyStart && bodyStart + |body| <= pkt.Length
    modifies pkt
    ensures pkt[bodyStart - |raddr|..bodyStart + |body|] == raddr + body
  {
    Store(pkt, bodyStart, body);
    var addrStart := bodyStart - |raddr|;
    Store(pkt, addrStart, raddr);
    assert pkt[bodyStart..bodyStart + |body|] == body;
    StoredInTwo(pkt[..], addrStart, |raddr|, raddr + body);
  }

  /** What a client makes of a datagram when its caller has room for `room` bytes. */
  datatype Reception =
    | Delivered(addr: Bytes, data: Bytes, short: bool)
    | BadPacket(reason: UnpackResult)
    | BadAddress

  function Received(c: Cipher, datagram: Bytes, room: nat): (r: Reception)
    ensures r.Delivered? ==> |r.data| <= room
  {
    var packet := datagram[..Min(|datagram|, CLIENT_BUFFER_SIZE)];
    match Unpacked(c, packet, CLIENT_BUFFER_SIZE - c.saltSize)
    case Plain(text) =>
      (match SplitAddr(text)
       case None => BadAddress
       case Some(a) =>
         var body := text[|a|..];
         Delivered(a, body[..Min(|body|, room)], room < |body|))
    case bad => BadPacket(bad)
  }

  /**
   * Something is delivered if and only if the datagram, as the buffer truncates
   * it, opens to a text that begins with an address, and then it is that address
   * and as much of the rest as fits.
   */
  lemma DeliveredIffOpens(c: Cipher, datagram: Bytes, room: nat)
    ensures var packet := datagram[..Min(|datagram|, CLIENT_BUFFER_SIZE)];
      var r := Received(c, datagram, room);
      && (r.Delivered? <==> exists text :: OpensPacket(c, packet, text) && SplitAddr(text).Some?)
      && forall text :: OpensPacket(c, packet, text) && SplitAddr(text).Some? ==>
           var a := SplitAddr(text).value;
           r == Delivered(a, text[|a|..][..Min(|text| - |a|, room)], |text| - |a| > room)
  {
    hide Unpacked, SplitAddr, OpensPacket;
    var packet, capacity := datagram[..Min(|datagram|, CLIENT_BUFFER_SIZE)], CLIENT_BUFFER_SIZE - c.saltSize;
    OpensWithin(c, packet, capacity);
  }

  /** In a buffer of its own size every packet that opens has room. */
  lemma OpensWithin(c: Cipher, packet: Bytes, capacity: nat)
    requires |packet| <= c.saltSize + capacity
    ensures forall text :: OpensPacket(c, packet, text) <==> Unpacked(c, packet, capacity) == Plain(text)
  {
    hide Unpacked;
    UnpackedIffOpens(c, packet, capacity);
    forall text | OpensPacket(c, packet, text) ensures |text| <= capacity {
      OpenedLength(c.newAead(packet[..c.saltSize]), ZeroNonce(), packet[c.saltSize..]);
    }
  }

  /** Decrypts a datagram in place in a buffer from the pool, which is given back. */
  method UnpackPooled(pool: Pool, c: Cipher, datagram: Bytes) returns (u: UnpackResult)
    requires pool.Valid() && pool.len == CLIENT_BUFFER_SIZE
    modifies pool, pool.free
    ensures pool.Valid() && forall s :: s in pool.slices ==> s in old(pool.slices) || (fresh(s) && s.slice == null)
    ensures u == Unpacked(c, datagram[..Min(|datagram|, CLIENT_BUFFER_SIZE)], CLIENT_BUFFER_SIZE - c.saltSize)
  {
    assert c.saltSize <= MAX_SALT_SIZE;
    hide Supported, Unpacked;
    var lazySlice := new LazySlice(pool);
    var cipherBuf := lazySlice.Acquire();
    var n := Min(|datagram|, CLIENT_BUFFER_SIZE);
    Store(cipherBuf, 0, datagram[..n]);
    assert cipherBuf[..n] == datagram[..n];
    var lo;
    u, lo := Unpack(null, cipherBuf, n, c);
    lazySlice.Release();
  }

  /** `packetConn.ReadFrom`: decrypts in a pooled buffer and copies the body out. */
  method ReadFrom(pool: Pool, c: Cipher, datagram: Bytes, b: array<byte>) returns (r: Reception)
    requires pool.Valid() && pool.len == CLIENT_BUFFER_SIZE && b !in pool.made
    modifies pool, pool.free, b
    ensures pool.Valid() && forall s :: s in pool.slices ==> s in old(pool.slices) || (fresh(s) && s.slice == null)
    ensures r == Received(c, datagram, b.Length)
    ensures var copied := if r.Delivered? then |r.data| else 0;
      && (r.Delivered? ==> b[..copied] == r.data)
      && forall i :: copied <= i < b.Length ==> b[i] == old(b[i])
  {
    hide Supported, Unpacked, SplitAddr, Pool.Valid;
    assert b !in pool.free by {
      FreeIsMade(pool);
    }
    var u := UnpackPooled(pool, c, datagram);
    if !u.Plain? {
      return BadPacket(u);
    }
    var addr := SplitAddr(u.text);
    if addr.None? {
      return BadAddress;
    }
    r := CopyOut(addr.value, u.text[|addr.value|..], b);
  }

  lemma FreeIsMade(pool: Pool)
    requires pool.Valid()
    ensures pool.free <= pool.made
  {
  }

  /** Copies the body to the caller, as far as it fits. */
  method CopyOut(addr: Bytes, body: Bytes, b: array<byte>) returns (r: Reception)
    modifies b
    ensures r == Delivered(addr, body[..Min(|body|, b.Length)], b.Length < |body|)
    ensures b[..|r.data|] == r.data
    ensures forall i :: |r.data| <= i < b.Length ==> b[i] == old(b[i])
  {
    var k := Min(|body|, b.Length);
    Store(b, 0, body[..k]);
    return Delivered(addr, body[..k], b.Length < |body|);
  }

  /** What the server packs, the client gets back: address and body, cut to the caller's room. */
  lemma DownstreamRoundTrip(c: Cipher, salt: Bytes, addr: Bytes, body: Bytes, room: nat)
    requires |salt| == c.saltSize && IsAddr(addr)
    requires c.saltSize + |addr| + |body| + c.tagSize <= CLIENT_BUFFER_SIZE
    ensures Received(c, Packed(c, salt, addr + body), room)
         == Delivered(addr, body[..Min(|body|, room)], room < |body|)
  {
    var packet := Packed(c, salt, addr + body);
    UnpackPacked(c, salt, addr + body, CLIENT_BUFFER_SIZE - c.saltSize);
    AddrIsPrefixFree(addr, body);
    hide Supported, Packed, Unpacked, SplitAddr;
    assert packet[..|packet|] == packet;
  }

  /** A datagram from a target, through the server's buffer, to the client's caller. */
  method Downstream(pkt: array<byte>, c: Cipher, datagram: Bytes, raddr: Bytes, salt: Bytes, pool: Pool, b: array<byte>)
    returns (r: Option<Reception>)
    requires pkt.Length == SERVER_BUFFER_SIZE && IsIpAddr(raddr) && |salt| == c.saltSize
    requires pool.Valid() && pool.len == CLIENT_BUFFER_SIZE && b !in pool.made && pkt !in pool.made && b != pkt
    modifies pkt, pool, pool.free, b
    ensures r.Some? <==> c.saltSize + MAX_ADDR_LEN + |datagram| + c.tagSize <= SERVER_BUFFER_SIZE
    ensures c.saltSize + |raddr| + |datagram| + c.tagSize <= CLIENT_BUFFER_SIZE ==>
              var k := Min(|datagram|, b.Length);
              r == Some(Delivered(raddr, datagram[..k], b.Length < |datagram|)) && b[..k] == datagram[..k]
  {
    hide Supported, Packed, Received, SplitAddr;
    AddrIsPrefixFree(raddr, datagram);
    var lo, n, err := RelayDown(pkt, c, datagram, raddr, Some(salt));
    if err.Some? {
      return None;
    }
    if c.saltSize + |raddr| + |datagram| + c.tagSize <= CLIENT_BUFFER_SIZE {
      DownstreamRoundTrip(c, salt, raddr, datagram, b.Length);
    }
    var got := ReadFrom(pool, c, pkt[lo..lo + n], b);
    r := Some(got);
  }

  // --------------------------------------------------------------------- upstream

  datatype Sending = Sent(packet: Bytes) | NoAddress | NotPacked(err: Err)

  /** `packetConn.WriteTo`: address and payload behind room for the salt, encrypted in place. */
  method WriteTo(pool: Pool, c: Cipher, b: Bytes, target: Option<Bytes>, salt: Option<Bytes>) returns (r: Sending)
    requires pool.Valid() && pool.len == CLIENT_BUFFER_SIZE
    requires salt.Some? ==> |salt.value| == c.saltSize
    modifies pool, pool.free
    ensures pool.Valid() && forall s :: s in pool.slices ==> s in old(pool.slices) || (fresh(s) && s.slice == null)
    ensures target.None? <==> r.NoAddress?
    ensures r.Sent? <==> target.Some? && salt.Some?
                         && c.saltSize + |target.value| + |b| + c.tagSize <= CLIENT_BUFFER_SIZE
    ensures r.Sent? ==> r.packet == Packed(c, salt.value, target.value + b)
  {
    hide Supported, Packed;
    if target.None? {
      return NoAddress;
    }
    var lazySlice := new LazySlice(pool);
    var cipherBuf := lazySlice.Acquire();
    var text := target.value + b;
    var plaintextBuf, start := cipherBuf, c.saltSize;
    if c.saltSize + |text| > cipherBuf.Length {
      plaintextBuf, start := new byte[|text|](_ => 0), 0;  // append outgrows the buffer
    }
    Store(plaintextBuf, start, text);
    var n, err := Pack(cipherBuf, 0, plaintextBuf, start, start + |text|, c, salt);
    r := if err.Some? then NotPacked(err.value) else Sent(cipherBuf[..n]);
    lazySlice.Release();
  }

  /**
   * What the client sent finds its own key, in any recency order, if no other
   * key opens it, and the server gets back the target address and the payload.
   */
  lemma UpstreamRoundTrip(e: CipherEntry, es: seq<CipherEntry>, order: seq<CipherEntry>, salt: Bytes,
      target: Bytes, payload: Bytes)
    requires |salt| == e.cipher.saltSize && IsAddr(target)
    requires e.cipher.saltSize + |target| + |payload| + e.cipher.tagSize <= SERVER_BUFFER_SIZE
    requires e in es && multiset(es) == multiset(order)
    requires var t := Trial.Packet(Packed(e.cipher, salt, target + payload), SERVER_BUFFER_SIZE);
      forall x :: x in es && Opens(x.cipher, t) ==> x == e
    ensures var packet := Packed(e.cipher, salt, target + payload);
      var found := FirstMatch(order, Trial.Packet(packet, SERVER_BUFFER_SIZE));
      && found.Some? && order[found.value] == e
      && Unpacked(e.cipher, packet, SERVER_BUFFER_SIZE) == Plain(target + payload)
    ensures SplitAddr(target + payload) == Some(target) && (target + payload)[|target|..] == payload
  {
    UnpackPacked(e.cipher, salt, target + payload, SERVER_BUFFER_SIZE);
    AddrIsPrefixFree(target, payload);
    hide Packed, Unpacked, SplitAddr, FirstMatch;
    OnlyMatchIsFound(es, order, Trial.Packet(Packed(e.cipher, salt, target + payload), SERVER_BUFFER_SIZE));
  }

  /** What the server makes of the next datagram of a client that has no entry yet. */
  method ReceiveUpstream(datagram: Bytes, clientIP: Option<Ip>, cipherBuf: array<byte>, textBuf: array<byte>,
      keys: KeyList, meanwhile: seq<Event<CipherEntry>>)
    returns (entry: CipherEntry?, text: Bytes, ghost order: seq<CipherEntry>)
    requires cipherBuf != textBuf && cipherBuf.Length == textBuf.Length == SERVER_BUFFER_SIZE
    modifies cipherBuf, textBuf, keys, keys.list, Marked(meanwhile)
    ensures multiset(order) == multiset(old(keys.list))
    ensures var packet := datagram[..Min(|datagram|, SERVER_BUFFER_SIZE)];
      match FirstMatch(order, Trial.Packet(packet, SERVER_BUFFER_SIZE))
      case None => entry == null && keys.list == After(old(keys.list), meanwhile)
      case Some(i) =>
        && entry == order[i] && Unpacked(order[i].cipher, packet, SERVER_BUFFER_SIZE) == Plain(text)
        && keys.list == MovedToFront(After(old(keys.list), meanwhile), order[i])
        && order[i].lastClientIP == clientIP
  {
    hide Supported, Unpacked, FirstMatch, MovedToFront, After;
    var n := Min(|datagram|, SERVER_BUFFER_SIZE);
    Store(cipherBuf, 0, datagram[..n]);
    assert cipherBuf[..n] == datagram[..n];
    entry, text, order := FindAccessKeyUDP(clientIP, textBuf, cipherBuf, n, keys, meanwhile);
  }

  /**
   * A packet of a client with a listed key, through the client's and the
   * server's buffers: it is sent exactly if it fits, and if no other key opens
   * it the server gets back the key, the target address and the payload.
   */
  method Upstream(client: CipherEntry, payload: Bytes, target: Bytes, salt: Bytes, pool: Pool,
      clientIP: Option<Ip>, cipherBuf: array<byte>, textBuf: array<byte>,
      keys: KeyList, meanwhile: seq<Event<CipherEntry>>)
    returns (sent: bool, entry: CipherEntry?, addr: Option<Bytes>, body: Bytes)
    requires client in keys.list && |salt| == client.cipher.saltSize && IsAddr(target)
    requires var t := Trial.Packet(Packed(client.cipher, salt, target + payload), SERVER_BUFFER_SIZE);
      forall x :: x in keys.list && Opens(x.cipher, t) ==> x == client
    requires pool.Valid() && pool.len == CLIENT_BUFFER_SIZE && cipherBuf !in pool.made && textBuf !in pool.made
    requires cipherBuf != textBuf && cipherBuf.Length == textBuf.Length == SERVER_BUFFER_SIZE
    modifies pool, pool.free, cipherBuf, textBuf, keys, keys.list, Marked(meanwhile)
    ensures sent <==> client.cipher.saltSize + |target| + |payload| + client.cipher.tagSize <= CLIENT_BUFFER_SIZE
    ensures sent ==> entry == client && addr == Some(target) && body == payload
    ensures sent ==> keys.list == MovedToFront(After(old(keys.list), meanwhile), client)
                     && client.lastClientIP == clientIP
  {
    hide Supported, Packed, Unpacked, FirstMatch, SplitAddr, MovedToFront, Opens, After;
    ghost var listed := keys.list;
    sent, entry, addr, body := false, null, None, [];
    var r := WriteTo(pool, client.cipher, payload, Some(target), Some(salt));
    if r.Sent? {
      var text;
      ghost var order;
      assert r.packet[..|r.packet|] == r.packet;
      entry, text, order := ReceiveUpstream(r.packet, clientIP, cipherBuf, textBuf, keys, meanwhile);
      UpstreamRoundTrip(client, listed, order, salt, target, payload);
      sent, addr := true, SplitAddr(text);
      body := text[|target|..];
    }
  }
}
