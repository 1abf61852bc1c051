/**
 * Finding the access key by trial decryption, for TCP and for UDP: the first
 * entry of a list, in a given order, that authenticates what the client sent.
 */
module KeySearch {
  import opened ByteSeqs
  import opened Crypto
  import opened StreamFormat
  import opened CipherList

  /** Bytes of a TCP stream read before the key is known. */
  const KEY_FINDING_BYTES: nat := 50

  /** provided >= 50 >= required, for every supported cipher. */
  lemma KeyFindingBytesSuffice(c: Cipher)
    ensures c.saltSize + 2 + c.tagSize <= KEY_FINDING_BYTES <= c.saltSize + 2 + 2 * c.tagSize
  {
  }

  /** `DecryptOnce`: opens with the zero nonce, if there is room for the tag and the plaintext. */
  function DecryptOnce(c: Cipher, salt: Bytes, capacity: nat, cipherText: Bytes): (r: Message)
    requires |salt| == c.saltSize
    ensures r.Opened? ==> |r.plaintext| + c.tagSize == |cipherText| && |r.plaintext| <= capacity
  {
    var a := c.newAead(salt);
    if |cipherText| < a.overhead then Failed(UnexpectedEof)
    else if capacity < |cipherText| - a.overhead then Failed(ShortBuffer)
    else
      match a.open(ZeroNonce(), cipherText)
      case None => Failed(Decrypt)
      case Some(p) => Opened(p)
  }

  /** Does this cipher authenticate the first length block of the stream? */
  predicate Authenticates(c: Cipher, firstBytes: Bytes)
    requires |firstBytes| == KEY_FINDING_BYTES
  {
    var blockEnd := c.saltSize + 2 + c.tagSize;
    DecryptOnce(c, firstBytes[..c.saltSize], 2, firstBytes[c.saltSize..blockEnd]).Opened?
  }

  /**
   * Does the cipher's own key open the first length block of this stream, under
   * the salt in front of it and the zero nonce?
   */
  ghost predicate OpensStream(c: Cipher, stream: Bytes) {
    && |stream| >= KEY_FINDING_BYTES
    && c.newAead(stream[..c.saltSize]).open(ZeroNonce(), stream[c.saltSize..c.saltSize + 2 + c.tagSize]).Some?
  }

  /** Authentication is exactly that. */
  lemma AuthenticatesIffOpens(c: Cipher, stream: Bytes)
    ensures |stream| >= KEY_FINDING_BYTES ==>
              (Authenticates(c, stream[..KEY_FINDING_BYTES]) <==> OpensStream(c, stream))
  {
    if |stream| >= KEY_FINDING_BYTES {
      var first, end := stream[..KEY_FINDING_BYTES], c.saltSize + 2 + c.tagSize;
      assert first[..c.saltSize] == stream[..c.saltSize];
      assert first[c.saltSize..end] == stream[c.saltSize..end];
      var a := c.newAead(stream[..c.saltSize]);
      if a.open(ZeroNonce(), stream[c.saltSize..end]).Some? {
        OpenedLength(a, ZeroNonce(), stream[c.saltSize..end]);
      }
    }
  }

  // ------------------------------------------------------------ packets as values

  /** Does the cipher's own key open this packet, under its salt and the zero nonce, and to this text? */
  ghost predicate OpensPacket(c: Cipher, packet: Bytes, text: Bytes) {
    && |packet| >= c.saltSize + c.tagSize
    && c.newAead(packet[..c.saltSize]).open(ZeroNonce(), packet[c.saltSize..]) == Some(text)
  }

  datatype UnpackResult = Plain(text: Bytes) | ShortPacket | Rejected(err: Err)

  /** What `Unpack` makes of a packet when there is room for `capacity` bytes of plaintext. */
  function Unpacked(c: Cipher, packet: Bytes, capacity: nat): (r: UnpackResult)
    ensures r.Plain? ==> |packet| == c.saltSize + |r.text| + c.tagSize && |r.text| <= capacity
  {
    if |packet| < c.saltSize then ShortPacket
    else
      match DecryptOnce(c, packet[..c.saltSize], capacity, packet[c.saltSize..])
      case Opened(p) => Plain(p)
      case Failed(e) => Rejected(e)
  }

  /**
   * A packet is unpacked if and only if it opens and there is room; one without
   * salt is too short, and any other failure has one reason.
   */
  lemma UnpackedIffOpens(c: Cipher, packet: Bytes, capacity: nat)
    ensures forall t :: Unpacked(c, packet, capacity) == Plain(t) <==> OpensPacket(c, packet, t) && |t| <= capacity
    ensures var r := Unpacked(c, packet, capacity);
      && (r == ShortPacket <==> |packet| < c.saltSize)
      && (r == Rejected(UnexpectedEof) <==> c.saltSize <= |packet| < c.saltSize + c.tagSize)
      && (r == Rejected(ShortBuffer) <==> |packet| > c.saltSize + c.tagSize + capacity)
      && (r == Rejected(Decrypt) <==>
            && c.saltSize + c.tagSize <= |packet| <= c.saltSize + c.tagSize + capacity
            && c.newAead(packet[..c.saltSize]).open(ZeroNonce(), packet[c.saltSize..]).None?)
  {
    if |packet| >= c.saltSize + c.tagSize {
      var a := c.newAead(packet[..c.saltSize]);
      if a.open(ZeroNonce(), packet[c.saltSize..]).Some? {
        OpenedLength(a, ZeroNonce(), packet[c.saltSize..]);
      }
    }
  }

  lemma PlainOpens(c: Cipher, packet: Bytes, capacity: nat)
    requires Unpacked(c, packet, capacity).Plain?
    ensures OpensPacket(c, packet, Unpacked(c, packet, capacity).text)
  {
    UnpackedIffOpens(c, packet, capacity);
  }

  /** What `Pack` makes of a plaintext. */
  function Packed(c: Cipher, salt: Bytes, plaintext: Bytes): (r: Bytes)
    requires |salt| == c.saltSize
    ensures |r| == c.saltSize + |plaintext| + c.tagSize
  {
    salt + c.newAead(salt).seal(ZeroNonce(), plaintext)
  }

  /** `Unpack` undoes `Pack` exactly when there is room for the plaintext. */
  lemma UnpackPacked(c: Cipher, salt: Bytes, plaintext: Bytes, capacity: nat)
    requires |salt| == c.saltSize
    ensures Unpacked(c, Packed(c, salt, plaintext), capacity)
         == if |plaintext| <= capacity then Plain(plaintext) else Rejected(ShortBuffer)
  {
    var sealed := c.newAead(salt).seal(ZeroNonce(), plaintext);
    assert (salt + sealed)[..c.saltSize] == salt && (salt + sealed)[c.saltSize..] == sealed;
  }

  /** None of these keys opens the packet to a text for which there is room. */
  ghost predicate NoneOpens(es: seq<CipherEntry>, packet: Bytes, capacity: nat) {
    forall e, text :: e in es && OpensPacket(e.cipher, packet, text) ==> |text| > capacity
  }

  // ------------------------------------------------------------------- the search

  /** What a client sent: the beginning of a stream, or a packet and the room for its plaintext. */
  datatype Trial = Stream(firstBytes: Bytes) | Packet(packet: Bytes, capacity: nat)

  predicate Opens(c: Cipher, t: Trial) {
    match t
    case Stream(firstBytes) => |firstBytes| == KEY_FINDING_BYTES && Authenticates(c, firstBytes)
    case Packet(packet, capacity) => Unpacked(c, packet, capacity).Plain?
  }

  lemma OpensIfPlain(c: Cipher, packet: Bytes, capacity: nat)
    ensures Opens(c, Packet(packet, capacity)) <==> Unpacked(c, packet, capacity).Plain?
  {
  }

  /** Index of the first entry that opens what the client sent. */
  function FirstMatch(es: seq<CipherEntry>, t: Trial): (r: Option<nat>)
    ensures r.Some? ==> r.value < |es|
  {
    if es == [] then None
    else if Opens(es[0].cipher, t) then Some(0)
    else
      match FirstMatch(es[1..], t)
      case None => None
      case Some(i) => Some(i + 1)
  }

  lemma {:induction false} FirstMatchIsFirst(es: seq<CipherEntry>, t: Trial)
    ensures match FirstMatch(es, t)
      case None => forall i :: 0 <= i < |es| ==> !Opens(es[i].cipher, t)
      case Some(r) => Opens(es[r].cipher, t) && forall i :: 0 <= i < r ==> !Opens(es[i].cipher, t)
  {
    hide Opens;
    if es != [] && !Opens(es[0].cipher, t) {
      FirstMatchIsFirst(es[1..], t);
      assert forall i :: 0 < i < |es| ==> es[i] == es[1..][i - 1];
    }
  }

  /**
   * Plain search: whatever the recency order, the only entry that opens the
   * bytes is the one found, and the search fails exactly if no entry does.
   */
  lemma OnlyMatchIsFound(es: seq<CipherEntry>, order: seq<CipherEntry>, t: Trial)
    requires multiset(es) == multiset(order)
    ensures FirstMatch(order, t).None? <==> forall e :: e in es ==> !Opens(e.cipher, t)
    ensures forall e :: e in es && Opens(e.cipher, t) && (forall x :: x in es && Opens(x.cipher, t) ==> x == e)
              ==> FirstMatch(order, t).Some? && order[FirstMatch(order, t).value] == e
  {
    hide Opens, FirstMatch;
    FirstMatchIsFirst(order, t);
    assert forall e :: e in es <==> e in multiset(es);
    assert forall e :: e in order <==> e in multiset(order);
  }

  /** Plain search of a packet, over the keys alone: it is found if and only if a key opens it. */
  lemma FoundIffOpened(es: seq<CipherEntry>, order: seq<CipherEntry>, packet: Bytes, capacity: nat)
    requires multiset(es) == multiset(order)
    ensures FirstMatch(order, Packet(packet, capacity)).None? <==> NoneOpens(es, packet, capacity)
  {
    var t := Packet(packet, capacity);
    hide FirstMatch, Unpacked, Supported;
    OnlyMatchIsFound(es, order, t);
    forall e | e in es
      ensures Opens(e.cipher, t) <==> exists x :: OpensPacket(e.cipher, packet, x) && |x| <= capacity
    {
      UnpackedIffOpens(e.cipher, packet, capacity);
      if Opens(e.cipher, t) {
        var x := Unpacked(e.cipher, packet, capacity).text;
        assert OpensPacket(e.cipher, packet, x);
      }
    }
  }

  /**
   * The same after any history of marks and updates, and for any client: the
   * search agrees with plain search of what was configured last.
   */
  lemma SearchAfterAnyHistory(list: seq<CipherEntry>, history: seq<Event<CipherEntry>>, flags: seq<bool>, t: Trial)
    requires |flags| == |After(list, history)|
    ensures var order, es := Partition(After(list, history), flags), Configured(list, history);
      && (FirstMatch(order, t).None? <==> forall e :: e in es ==> !Opens(e.cipher, t))
      && (forall e :: e in es && Opens(e.cipher, t) && (forall x :: x in es && Opens(x.cipher, t) ==> x == e)
            ==> FirstMatch(order, t).Some? && order[FirstMatch(order, t).value] == e)
  {
    hide After, Configured, Partition, Opens, FirstMatch;
    var order, es := Partition(After(list, history), flags), Configured(list, history);
    AlwaysWhatWasConfigured(list, history);
    PartitionIsPermutation(After(list, history), flags);
    OnlyMatchIsFound(es, order, t);
  }

  /** The keys to try, in order. */
  method TakeSnapshot(clientIP: Option<Ip>, keys: KeyList) returns (ciphers: seq<CipherEntry>)
    ensures ciphers == Partition(keys.list, keys.Flags(clientIP))
    ensures multiset(ciphers) == multiset(keys.list)
  {
    PartitionIsPermutation(keys.list, keys.Flags(clientIP));
    hide Partition;
    var snapshot := keys.SnapshotForClientIP(clientIP);
    ciphers := snapshot[..];
  }

  /** Moves the key that was found to the front. */
  method NoteUse(entry: CipherEntry, clientIP: Option<Ip>, keys: KeyList)
    modifies keys, entry`lastClientIP
    ensures keys.list == MovedToFront<CipherEntry>(old(keys.list), entry)
    ensures multiset(keys.list) == multiset(old(keys.list))
    ensures entry.lastClientIP == clientIP
  {
    MoveIsPermutation(keys.list, entry);
    keys.MarkUsedByClientIP(entry, clientIP);
  }
}
