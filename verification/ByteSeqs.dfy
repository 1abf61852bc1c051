/** Byte strings, the little-endian block counter, and the 16-bit length field. */
module ByteSeqs {

  datatype Option<+T> = None | Some(value: T)

  /** An unsigned byte; addition wraps around. */
  type byte = bv8

  type Bytes = seq<byte>

  function ToInt(b: byte): (n: nat)
    ensures n < 256
  {
    b as nat
  }

  /** Incrementing a byte carries exactly when the byte becomes zero. */
  lemma NextByte(b: byte)
    ensures b + 1 == 0 <==> ToInt(b) == 255
    ensures b + 1 != 0 ==> ToInt(b + 1) == ToInt(b) + 1
    ensures b == 0 <==> ToInt(b) == 0
  {
  }

  /** The byte reached from zero after x increments. */
  function CountUp(x: nat): (b: byte)
    requires x < 256
    ensures ToInt(b) == x
  {
    if x == 0 then 0
    else
      NextByte(CountUp(x - 1));
      CountUp(x - 1) + 1
  }

  /** Conversion to a byte keeps the low eight bits. */
  function ToByte(n: nat): (b: byte)
    ensures ToInt(b) == n % 256
  {
    CountUp(n % 256)
  }

  lemma ToIntInjective(a: byte, b: byte)
    requires ToInt(a) == ToInt(b)
    ensures a == b
  {
  }

  /** The concatenation of a list of byte strings. */
  function Flat(parts: seq<Bytes>): Bytes {
    if parts == [] then [] else parts[0] + Flat(parts[1..])
  }

  lemma {:induction false} FlatAppend(a: seq<Bytes>, b: seq<Bytes>)
    ensures Flat(a + b) == Flat(a) + Flat(b)
  {
    if a == [] {
      assert a + b == b;
    } else {
      FlatAppend(a[1..], b);
      assert (a + b)[1..] == a[1..] + b;
      assert a[0] + (Flat(a[1..]) + Flat(b)) == (a[0] + Flat(a[1..])) + Flat(b);
    }
  }

  lemma FlatOne(x: Bytes)
    ensures Flat([x]) == x
  {
    assert [x][1..] == [];
  }

  lemma FlatSnoc(a: seq<Bytes>, x: Bytes)
    ensures Flat(a + [x]) == Flat(a) + x
  {
    FlatAppend(a, [x]);
    FlatOne(x);
  }

  function Min(a: int, b: int): int {
    if a <= b then a else b
  }

  // ---------------------------------------------------------------- counters

  /** 256 to the power n: the number of values of an n-byte counter. */
  function Pow256(n: nat): (p: nat)
    ensures p >= 1
  {
    if n == 0 then 1 else 256 * Pow256(n - 1)
  }

  /** The number a little-endian byte string stands for. */
  function Value(b: Bytes): (v: nat)
    ensures v < Pow256(|b|)
  {
    if b == [] then 0 else ToInt(b[0]) + 256 * Value(b[1..])
  }

  /** The n-byte little-endian counter after k increments from zero. */
  function Nonce(n: nat, k: nat): (b: Bytes)
    ensures |b| == n
  {
    if n == 0 then [] else [ToByte(k)] + Nonce(n - 1, k / 256)
  }

  /** One increment, with wrap-around. */
  function Succ(b: Bytes): (r: Bytes)
    ensures |r| == |b|
  {
    if b == [] then []
    else if b[0] + 1 != 0 then [b[0] + 1] + b[1..]
    else [0] + Succ(b[1..])
  }

  lemma MulAtLeast(m: int, d: int)
    requires m > 0
    ensures d >= 1 ==> m * d >= m
    ensures d <= -1 ==> m * d <= -m
  {
    if d >= 1 {
      assert m * d == m + m * (d - 1);
    } else if d <= -1 {
      assert m * d == -m + m * (d + 1);
    }
  }

  lemma MulMonotone(m: nat, a: nat, b: nat)
    ensures a <= b ==> m * a <= m * b
  {
    if a <= b {
      assert m * b == m * a + m * (b - a);
    }
  }

  lemma ModUnique(x: nat, m: nat, q: nat, r: nat)
    requires m > 0 && r < m && x == m * q + r
    ensures x % m == r && x / m == q
  {
    var d := x / m - q;
    assert m * d == m * (x / m) - m * q;
    MulAtLeast(m, d);
  }

  lemma ModSplit(k: nat, p: nat)
    requires p >= 1
    ensures k % (256 * p) == k % 256 + 256 * ((k / 256) % p)
  {
    var a, r := k / 256, k % 256;
    var q, s := a / p, a % p;
    assert a == p * q + s;
    assert k == 256 * (p * q + s) + r;
    assert 256 * (p * q) == (256 * p) * q;
    ModUnique(k, 256 * p, q, 256 * s + r);
  }

  lemma {:induction false} NonceValue(n: nat, k: nat)
    ensures Value(Nonce(n, k)) == k % Pow256(n)
  {
    hide ToInt, ToByte;
    if n > 0 {
      NonceValue(n - 1, k / 256);
      ModSplit(k, Pow256(n - 1));
    }
  }

  lemma {:induction false} ValueInjective(a: Bytes, b: Bytes)
    requires |a| == |b| && Value(a) == Value(b)
    ensures a == b
  {
    hide ToInt, ToByte;
    if a != [] {
      ModUnique(Value(a), 256, Value(a[1..]), ToInt(a[0]));
      ModUnique(Value(b), 256, Value(b[1..]), ToInt(b[0]));
      ToIntInjective(a[0], b[0]);
      ValueInjective(a[1..], b[1..]);
      assert a == [a[0]] + a[1..] && b == [b[0]] + b[1..];
    }
  }

  /** `increment` adds one to the little-endian value, modulo 256^n. */
  lemma {:induction false} SuccValue(b: Bytes)
    ensures Value(Succ(b)) == (Value(b) + 1) % Pow256(|b|)
  {
    hide ToInt, ToByte;
    if b != [] {
      var t := b[1..];
      NextByte(b[0]);
      if b[0] + 1 != 0 {
        assert Succ(b)[1..] == t;
        ModSmall(Value(Succ(b)), Pow256(|b|));
      } else {
        SuccValue(t);
        assert Succ(b)[1..] == Succ(t);
        NextByte(Succ(b)[0]);
        CarryMod(Value(t), Pow256(|t|));
      }
    }
  }

  lemma CarryMod(v: nat, p: nat)
    requires p >= 1
    ensures (255 + 256 * v + 1) % (256 * p) == 256 * ((v + 1) % p)
  {
    ModSplit(255 + 256 * v + 1, p);
  }

  lemma ModSmall(x: nat, m: nat)
    requires x < m
    ensures x % m == x
  {
  }

  /** The counter of the k-th block, incremented, is the counter of the next block. */
  lemma {:induction false} SuccNonce(n: nat, k: nat)
    ensures Succ(Nonce(n, k)) == Nonce(n, k + 1)
  {
    hide ToInt, ToByte;
    if n > 0 {
      NextByte(ToByte(k));
      NextByte(ToByte(k + 1));
      if k % 256 == 255 {
        assert (k + 1) % 256 == 0 && (k + 1) / 256 == k / 256 + 1;
        SuccNonce(n - 1, k / 256);
      } else {
        assert (k + 1) % 256 == k % 256 + 1 && (k + 1) / 256 == k / 256;
        ToIntInjective(ToByte(k) + 1, ToByte(k + 1));
      }
    }
  }

  /** Two block indices share a nonce exactly when they agree modulo 256^n. */
  lemma {:induction false} NonceCollision(n: nat, i: nat, j: nat)
    ensures Nonce(n, i) == Nonce(n, j) <==> i % Pow256(n) == j % Pow256(n)
  {
    hide ToInt, ToByte;
    NonceValue(n, i);
    NonceValue(n, j);
    if i % Pow256(n) == j % Pow256(n) {
      ValueInjective(Nonce(n, i), Nonce(n, j));
    }
  }

  predicate AllZero(b: Bytes) {
    forall i :: 0 <= i < |b| ==> b[i] == 0
  }

  lemma {:induction false} AllZeroValue(b: Bytes)
    ensures AllZero(b) <==> Value(b) == 0
  {
    hide ToInt, ToByte;
    if b != [] {
      NextByte(b[0]);
      AllZeroValue(b[1..]);
      assert forall i :: 0 <= i < |b| - 1 ==> b[1..][i] == b[i + 1];
      assert AllZero(b) <==> b[0] == 0 && AllZero(b[1..]) by {
        if b[0] == 0 && AllZero(b[1..]) {
          forall i | 0 <= i < |b| ensures b[i] == 0 {
            assert i > 0 ==> b[i] == b[1..][i - 1];
          }
        }
      }
    }
  }

  /** The counter reads zero exactly at the blocks whose index is a multiple of 256^n. */
  lemma NonceZero(n: nat, k: nat)
    ensures AllZero(Nonce(n, k)) <==> k % Pow256(n) == 0
  {
    hide ToInt, ToByte;
    NonceValue(n, k);
    AllZeroValue(Nonce(n, k));
  }

  /** A freshly allocated counter is the counter of block 0. */
  lemma ZeroCounter(c: Bytes)
    requires forall i :: 0 <= i < |c| ==> c[i] == 0
    ensures c == Nonce(|c|, 0)
  {
    if c != [] {
      ZeroCounter(c[1..]);
    }
  }

  /** Adds one to the counter in place; wraps around on overflow. */
  method Increment(b: array<byte>)
    modifies b
    ensures b[..] == Succ(old(b[..]))
  {
    ghost var was := b[..];
    var i := 0;
    while i < b.Length
      invariant 0 <= i <= b.Length
      invariant forall j :: i <= j < b.Length ==> b[j] == was[j]
      invariant forall j :: 0 <= j < i ==> b[j] == 0 && was[j] + 1 == 0
    {
      b[i] := b[i] + 1;
      if b[i] != 0 {
        SuccAt(was, i);
        return;
      }
      i := i + 1;
    }
    SuccAt(was, i);
  }

  /** A carry runs through the leading 255s and stops at the first other byte. */
  lemma {:induction false} SuccAt(b: Bytes, i: nat)
    requires i <= |b| && forall j :: 0 <= j < i ==> b[j] + 1 == 0
    requires i < |b| ==> b[i] + 1 != 0
    ensures forall j :: 0 <= j < i ==> Succ(b)[j] == 0
    ensures i < |b| ==> Succ(b)[i] == b[i] + 1
    ensures forall j :: i < j < |b| ==> Succ(b)[j] == b[j]
  {
    if i > 0 {
      SuccAt(b[1..], i - 1);
    }
  }

  method IsZero(b: array<byte>) returns (r: bool)
    ensures r <==> AllZero(b[..])
  {
    var i := 0;
    while i < b.Length
      invariant 0 <= i <= b.Length
      invariant forall j :: 0 <= j < i ==> b[j] == 0
    {
      if b[i] != 0 {
        assert b[..][i] != 0;
        return false;
      }
      i := i + 1;
    }
    return true;
  }

  // ------------------------------------------------------- 16-bit length field

  /** Big-endian encoding of a 16-bit length; the conversion to uint16 truncates. */
  function PutUint16(n: nat): (b: Bytes)
    ensures |b| == 2
  {
    [ToByte(n / 256), ToByte(n)]
  }

  function GetUint16(b: Bytes): (n: nat)
    requires |b| == 2
    ensures n < 0x10000
  {
    ToInt(b[0]) * 256 + ToInt(b[1])
  }
}
