/**
 * The AEAD ciphers as a set of laws.
 *
 * The cryptography itself is not part of this model: a cipher is a pair of
 * sizes and a key-derivation function, and an AEAD is a pair of functions.
 * `LawfulAead` states everything the proofs use about them, and the subset
 * type `Cipher` carries those laws, with a toy cipher as the witness that they
 * can be met.
 */
module Crypto {
  import opened ByteSeqs

  /** An AEAD under one session key: `seal(nonce, plaintext)`, `open(nonce, ciphertext)`. */
  datatype Aead = Aead(
    overhead: nat, nonceSize: nat,
    seal: (Bytes, Bytes) -> Bytes, open: (Bytes, Bytes) -> Option<Bytes>)

  /** Sealing adds the tag, opening inverts sealing, and opening removes the tag. */
  ghost predicate LawfulAead(a: Aead) {
    && (forall n: Bytes, p: Bytes {:trigger a.seal(n, p)} | |n| == a.nonceSize ::
          |a.seal(n, p)| == |p| + a.overhead && a.open(n, a.seal(n, p)) == Some(p))
    && (forall n: Bytes, c: Bytes {:trigger a.open(n, c)} | |n| == a.nonceSize ::
          a.open(n, c).Some? ==> |c| == |a.open(n, c).value| + a.overhead)
  }

  /** Opening takes exactly the tag off. */
  lemma OpenedLength(a: Aead, n: Bytes, c: Bytes)
    requires LawfulAead(a) && |n| == a.nonceSize && a.open(n, c).Some?
    ensures |c| == |a.open(n, c).value| + a.overhead
  {
  }

  /** A cipher of the supported list together with its secret. */
  datatype CipherSpec = CipherSpec(saltSize: nat, tagSize: nat, newAead: Bytes -> Aead)

  // shadowsocks/cipher.go lists (salt size, tag size) as (32,16), (32,16), (24,16), (16,16);
  // every listed AEAD has a 12-byte nonce.
  const NONCE_SIZE: nat := 12
  const MAX_SALT_SIZE: nat := 32
  const TAG_SIZE: nat := 16

  ghost predicate Supported(c: CipherSpec) {
    && c.saltSize in {16, 24, 32}
    && c.tagSize == TAG_SIZE
    && (forall salt: Bytes {:trigger c.newAead(salt)} | |salt| == c.saltSize ::
          && c.newAead(salt).overhead == c.tagSize
          && c.newAead(salt).nonceSize == NONCE_SIZE
          && LawfulAead(c.newAead(salt)))
  }

  type Cipher = c: CipherSpec | Supported(c) witness ToyCipher()

  /** An AEAD whose tag is the padded nonce: it shows that the laws can be met. */
  function ToyAead(): (a: Aead)
    ensures LawfulAead(a) && a.overhead == TAG_SIZE && a.nonceSize == NONCE_SIZE
  {
    var a := Aead(TAG_SIZE, NONCE_SIZE,
                  (n: Bytes, p: Bytes) => p + ([0, 0, 0, 0] + n),
                  (n: Bytes, c: Bytes) =>
                    var m := |c| - TAG_SIZE;
                    if m >= 0 && c[m..] == [0, 0, 0, 0] + n then Some(c[..m]) else None);
    assert forall n: Bytes, p: Bytes | |n| == NONCE_SIZE ::
        a.seal(n, p)[..|p|] == p && a.seal(n, p)[|p|..] == [0, 0, 0, 0] + n;
    a
  }

  function ToyCipher(): (c: CipherSpec)
    ensures Supported(c)
  {
    CipherSpec(32, TAG_SIZE, _ => ToyAead())
  }

  function ZeroNonce(): (n: Bytes)
    ensures |n| == NONCE_SIZE && n == Nonce(NONCE_SIZE, 0)
  {
    Nonce(NONCE_SIZE, 0)
  }
}
