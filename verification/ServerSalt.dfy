/** Salts that the server marks as its own, to recognise its output when it is sent back. */
module ServerSalt {
  import opened ByteSeqs
  import opened Crypto

  /** Bytes of the salt used as the mark, and the randomness that must remain. */
  const MARK_LEN: nat := 4
  const MIN_SALT_ENTROPY: nat := 16

  /** `tag` is the keyed hash of the salt prefix; its first four bytes are the mark. */
  datatype SaltGenerator = RandomSalts | MarkedSalts(tag: Bytes -> Bytes)

  ghost predicate ValidGenerator(g: SaltGenerator) {
    g.MarkedSalts? ==> forall p: Bytes :: |g.tag(p)| >= MARK_LEN
  }

  type ServerSaltGenerator = g: SaltGenerator | ValidGenerator(g) witness RandomSalts

  /** Fills a buffer of n bytes with a salt; `random` is what the random source gives, if it does not fail. */
  function GetSalt(g: ServerSaltGenerator, n: nat, random: Option<Bytes>): (salt: Option<Bytes>)
    requires random.Some? ==> |random.value| == n
    ensures salt.Some? ==> |salt.value| == n
    ensures salt.None? <==> random.None? || (g.MarkedSalts? && n < MARK_LEN)
    // All the randomness there is, and for a marked salt the mark of what is before it.
    ensures salt.Some? && g.RandomSalts? ==> salt == random
    ensures salt.Some? && g.MarkedSalts? ==>
              var p := n - MARK_LEN;
              salt.value[..p] == random.value[..p] && salt.value[p..] == g.tag(random.value[..p])[..MARK_LEN]
  {
    match g
    case RandomSalts => random
    case MarkedSalts(tag) =>
      if n < MARK_LEN || random.None? then None
      else
        var prefix := random.value[..n - MARK_LEN];
        Some(prefix + tag(prefix)[..MARK_LEN])
  }

  predicate IsServerSalt(g: ServerSaltGenerator, salt: Bytes) {
    match g
    case RandomSalts => false
    case MarkedSalts(tag) =>
      |salt| >= MARK_LEN &&
      var p := |salt| - MARK_LEN;
      tag(salt[..p])[..MARK_LEN] == salt[p..]
  }

  /** The generator of a cipher entry: marked only if enough randomness remains. */
  function GeneratorFor(c: CipherSpec, tag: Bytes -> Bytes): SaltGenerator {
    if c.saltSize - MARK_LEN >= MIN_SALT_ENTROPY then MarkedSalts(tag) else RandomSalts
  }

  /** A marking generator recognises every salt it makes; an unmarking one recognises none. */
  lemma OwnSaltsAreRecognised(g: ServerSaltGenerator, random: Bytes)
    requires GetSalt(g, |random|, Some(random)).Some?
    ensures IsServerSalt(g, GetSalt(g, |random|, Some(random)).value) <==> g.MarkedSalts?
  {
    if g.MarkedSalts? {
      var salt, p := GetSalt(g, |random|, Some(random)).value, |random| - MARK_LEN;
      assert salt[..p] == random[..p];
      assert salt[p..] == g.tag(random[..p])[..MARK_LEN];
    }
  }

  /** A salt is recognised if and only if the generator marks salts and could have made this one. */
  lemma RecognisedIffMade(g: ServerSaltGenerator, salt: Bytes)
    ensures IsServerSalt(g, salt)
       <==> g.MarkedSalts?
            && exists random: Bytes :: |random| == |salt| && GetSalt(g, |salt|, Some(random)) == Some(salt)
  {
    if IsServerSalt(g, salt) {
      var p := |salt| - MARK_LEN;
      assert salt == salt[..p] + salt[p..];
      assert GetSalt(g, |salt|, Some(salt)) == Some(salt);
    } else if g.MarkedSalts? {
      forall random: Bytes | |random| == |salt| ensures GetSalt(g, |salt|, Some(random)) != Some(salt) {
        if GetSalt(g, |salt|, Some(random)) == Some(salt) {
          OwnSaltsAreRecognised(g, random);
        }
      }
    }
  }

  /** Does this salt end in what the generator's tag of its beginning says? */
  ghost predicate EndsInMark(g: ServerSaltGenerator, salt: Bytes) {
    g.MarkedSalts? && exists prefix: Bytes :: salt == prefix + g.tag(prefix)[..MARK_LEN]
  }

  /** What is recognised is precisely the mark. */
  lemma RecognisedByItsMark(g: ServerSaltGenerator, salt: Bytes)
    ensures IsServerSalt(g, salt) <==> EndsInMark(g, salt)
  {
    if IsServerSalt(g, salt) {
      var p := |salt| - MARK_LEN;
      assert salt == salt[..p] + g.tag(salt[..p])[..MARK_LEN];
    }
    if EndsInMark(g, salt) {
      var prefix: Bytes :| salt == prefix + g.tag(prefix)[..MARK_LEN];
      assert salt[..|salt| - MARK_LEN] == prefix;
    }
  }

  /** Given the rest of a salt, there is one way only to mark it. */
  lemma OneMarkPerPrefix(g: ServerSaltGenerator, s: Bytes, t: Bytes)
    requires IsServerSalt(g, s) && IsServerSalt(g, t) && |s| == |t|
    requires s[..|s| - MARK_LEN] == t[..|t| - MARK_LEN]
    ensures s == t
  {
    var p := |s| - MARK_LEN;
    assert s == s[..p] + s[p..] && t == t[..p] + t[p..];
  }

  /** Of the supported ciphers, exactly the one with 16-byte salts goes unmarked. */
  lemma MarkedCiphers(c: Cipher, tag: Bytes -> Bytes)
    ensures GeneratorFor(c, tag).MarkedSalts? <==> c.saltSize != 16
  {
  }
}
