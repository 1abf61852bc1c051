/**
 * The replay cache: two generations of 32-bit hashes. It is proved to answer
 * as a plain log of insertions would that looks back over a window whose
 * length is a closed form of the number of insertions.
 */
module Replay {
  import opened ByteSeqs

  type Hash = bv32

  const MAX_CAPACITY: nat := 20000

  // ------------------------------------------------------------- the log view

  /** How often the active generation has been archived when n hashes have been inserted. */
  function Generation(n: nat, cap: nat): nat
    requires cap > 0
  {
    if n == 0 then 0 else (n - 1) / cap
  }

  /** Index of the first insertion that is still in the active generation. */
  function ActiveStart(n: nat, cap: nat): nat
    requires cap > 0
  {
    cap * Generation(n, cap)
  }

  /** Index of the first insertion that is remembered at all. */
  function WindowStart(n: nat, cap: nat): nat
    requires cap > 0
  {
    if Generation(n, cap) == 0 then 0 else cap * (Generation(n, cap) - 1)
  }

  /** The active generation holds 1 to cap insertions, the archive cap or none. */
  lemma Generations(n: nat, cap: nat)
    requires cap > 0
    ensures WindowStart(n, cap) <= ActiveStart(n, cap) <= n
    ensures n > 0 ==> 1 <= n - ActiveStart(n, cap) <= cap
    ensures ActiveStart(n, cap) - WindowStart(n, cap) == if Generation(n, cap) == 0 then 0 else cap
    ensures Generation(n, cap) == 0 <==> n <= cap
  {
    if n > 0 {
      var q, r := (n - 1) / cap, (n - 1) % cap;
      assert n - 1 == cap * q + r;
      if q > 0 {
        assert cap * q == cap * (q - 1) + cap;
        MulAtLeast(cap, q);
      }
    }
  }

  /** One more insertion: the generations move on exactly when the active one is full. */
  lemma GenerationStep(n: nat, cap: nat)
    requires cap > 0
    ensures Generation(n + 1, cap)
         == Generation(n, cap) + if n > 0 && n - ActiveStart(n, cap) == cap then 1 else 0
  {
    if n == 0 {
      ModUnique(0, cap, 0, 0);
    } else {
      var q, r := (n - 1) / cap, (n - 1) % cap;
      assert n - 1 == cap * q + r;
      if r == cap - 1 {
        assert n == cap * (q + 1) + 0;
        ModUnique(n, cap, q + 1, 0);
      } else {
        ModUnique(n, cap, q, r + 1);
      }
    }
  }

  /** One more insertion either starts a new generation or leaves both where they are. */
  lemma StartsStep(n: nat, cap: nat)
    requires cap > 0
    ensures ActiveStart(n + 1, cap) == if n - ActiveStart(n, cap) == cap then n else ActiveStart(n, cap)
    ensures WindowStart(n + 1, cap)
         == if n - ActiveStart(n, cap) == cap then ActiveStart(n, cap) else WindowStart(n, cap)
  {
    Generations(n, cap);
    GenerationStep(n, cap);
  }

  lemma NextQuotient(cap: nat, q: nat, r: nat, q': nat, r': nat)
    requires r < cap && cap * q' + r' <= cap * q + r + cap
    ensures q' <= q + 1
  {
    MulMonotone(cap, q + 2, q');
  }

  /** At most one rotation happens within cap insertions. */
  lemma GenerationBound(n: nat, m: nat, cap: nat)
    requires cap > 0 && n <= m <= n + cap
    ensures Generation(m, cap) <= Generation(n, cap) + 1
  {
    if n > 0 {
      assert n - 1 == cap * ((n - 1) / cap) + (n - 1) % cap;
      assert m - 1 == cap * ((m - 1) / cap) + (m - 1) % cap;
      NextQuotient(cap, (n - 1) / cap, (n - 1) % cap, (m - 1) / cap, (m - 1) % cap);
    } else {
      Generations(m, cap);
    }
  }

  function Active(log: seq<Hash>, cap: nat): seq<Hash>
    requires cap > 0
  {
    Generations(|log|, cap);
    log[ActiveStart(|log|, cap)..]
  }

  /** The suffix of the insertion log that the cache represents. */
  function Window(log: seq<Hash>, cap: nat): seq<Hash>
    requires cap > 0
  {
    Generations(|log|, cap);
    log[WindowStart(|log|, cap)..]
  }

  /** Only what was inserted is remembered. */
  lemma WindowIsOfLog(log: seq<Hash>, cap: nat)
    requires cap > 0
    ensures forall h :: h in Window(log, cap) ==> h in log
  {
  }

  /** The answer of `Add`: is this hash new? */
  predicate Answer(log: seq<Hash>, cap: nat, h: Hash) {
    cap == 0 || h !in Window(log, cap)
  }

  /** With the cache off, and for every hash that was never inserted, the answer is yes. */
  lemma NeverInsertedIsNew(log: seq<Hash>, cap: nat, h: Hash)
    ensures cap == 0 || h !in log ==> Answer(log, cap, h)
  {
    if cap > 0 {
      WindowIsOfLog(log, cap);
    }
  }

  /** The log after `Add`: hashes of the active generation are not inserted again. */
  function Inserted(log: seq<Hash>, cap: nat, h: Hash): seq<Hash> {
    if cap == 0 || h in Active(log, cap) then log else log + [h]
  }

  function InsertedAll(log: seq<Hash>, cap: nat, hs: seq<Hash>): seq<Hash>
    decreases |hs|
  {
    if hs == [] then log else InsertedAll(Inserted(log, cap, hs[0]), cap, hs[1..])
  }

  lemma {:induction false} InsertedAllAppend(log: seq<Hash>, cap: nat, a: seq<Hash>, b: seq<Hash>)
    ensures InsertedAll(log, cap, a + b) == InsertedAll(InsertedAll(log, cap, a), cap, b)
    decreases |a|
  {
    hide Inserted;
    if a == [] {
      assert a + b == b;
    } else {
      assert (a + b)[1..] == a[1..] + b;
      InsertedAllAppend(Inserted(log, cap, a[0]), cap, a[1..], b);
    }
  }

  /** The window covers the last min(n, cap+1) insertions and at most 2*cap. */
  lemma WindowBounds(log: seq<Hash>, cap: nat)
    requires cap > 0
    ensures Min(|log|, cap + 1) <= |Window(log, cap)| <= 2 * cap
  {
    Generations(|log|, cap);
  }

  lemma {:induction false} LogGrows(log: seq<Hash>, cap: nat, hs: seq<Hash>)
    ensures log <= InsertedAll(log, cap, hs)
    ensures |InsertedAll(log, cap, hs)| <= |log| + |hs|
    decreases |hs|
  {
    if hs != [] {
      LogGrows(Inserted(log, cap, hs[0]), cap, hs[1..]);
    }
  }

  /** Once added, a hash is refused throughout the next `cap` calls, whatever they add. */
  lemma RememberedForCapacity(log: seq<Hash>, cap: nat, h: Hash, between: seq<Hash>)
    requires cap > 0 && |between| <= cap
    ensures !Answer(InsertedAll(Inserted(log, cap, h), cap, between), cap, h)
  {
    var l1 := Inserted(log, cap, h);
    var i := InsertedIndex(log, cap, h);
    LogGrows(l1, cap, between);
    ActiveStaysInWindow(l1, InsertedAll(l1, cap, between), cap, i);
  }

  /** What is in the active generation now is archived at most once by cap insertions. */
  lemma ActiveStaysInWindow(l1: seq<Hash>, l2: seq<Hash>, cap: nat, i: nat)
    requires cap > 0 && l1 <= l2 && |l2| <= |l1| + cap
    requires ActiveStart(|l1|, cap) <= i < |l1|
    ensures l1[i] in Window(l2, cap)
  {
    Generations(|l2|, cap);
    GenerationBound(|l1|, |l2|, cap);
    WindowMonotone(Generation(|l1|, cap), Generation(|l2|, cap), cap);
    assert l2[i] == l1[i] && l2[i] == Window(l2, cap)[i - WindowStart(|l2|, cap)];
  }

  /** After an `Add`, the hash is in the active generation. */
  lemma InsertedIndex(log: seq<Hash>, cap: nat, h: Hash) returns (i: nat)
    requires cap > 0
    ensures var l1 := Inserted(log, cap, h);
      i < |l1| && ActiveStart(|l1|, cap) <= i && l1[i] == h
  {
    Generations(|log|, cap);
    Generations(|log| + 1, cap);
    if h in Active(log, cap) {
      var j :| 0 <= j < |Active(log, cap)| && Active(log, cap)[j] == h;
      i := j + ActiveStart(|log|, cap);
    } else {
      i := |log|;
    }
  }

  lemma WindowMonotone(g: nat, g': nat, cap: nat)
    requires cap > 0 && g' <= g + 1
    ensures g' > 0 ==> cap * (g' - 1) <= cap * g
  {
    if g' > 0 {
      MulMonotone(cap, g' - 1, g);
    }
  }

  predicate AllNew(log: seq<Hash>, hs: seq<Hash>) {
    && (forall i :: 0 <= i < |hs| ==> hs[i] !in log)
    && (forall i, j :: 0 <= i < j < |hs| ==> hs[i] != hs[j])
  }

  lemma {:induction false} NewOnesAreInserted(log: seq<Hash>, cap: nat, hs: seq<Hash>)
    requires cap > 0 && AllNew(log, hs)
    ensures InsertedAll(log, cap, hs) == log + hs
    decreases |hs|
  {
    if hs == [] {
      assert log + hs == log;
    } else {
      var l := log + [hs[0]];
      assert hs[0] !in Active(log, cap) by {
        Generations(|log|, cap);
      }
      assert AllNew(l, hs[1..]);
      NewOnesAreInserted(l, cap, hs[1..]);
      assert l + hs[1..] == log + hs;
    }
  }

  /**
   * The promise is tight: a hash that filled the active generation is forgotten
   * after cap+1 further new ones.
   */
  lemma ForgottenAfterOneMore(log: seq<Hash>, cap: nat, between: seq<Hash>)
    requires cap > 0 && |log| > 0 && |log| % cap == 0
    requires |between| == cap + 1 && AllNew(log, between)
    ensures Answer(InsertedAll(log, cap, between), cap, log[|log| - 1])
  {
    NewOnesAreInserted(log, cap, between);
    var n, q := |log|, |log| / cap;
    assert n == cap * q;
    assert n + cap == cap * (q + 1) + 0;
    ModUnique(n + cap, cap, q + 1, 0);
    assert Window(log + between, cap) == between;
  }

  // ----------------------------------------------------------------- the cache

  /** The two sets hold the window of the log: the active generation, and the one before it. */
  ghost predicate Mirrors(active: set<Hash>, archive: set<Hash>, log: seq<Hash>, cap: nat)
    requires cap > 0
  {
    Generations(|log|, cap);
    var a, w := ActiveStart(|log|, cap), WindowStart(|log|, cap);
    && (forall h :: h in active <==> h in log[a..])
    && (forall h :: h in archive <==> h in log[w..a])
    && |active| == |log| - a
  }

  lemma MirrorsWindow(active: set<Hash>, archive: set<Hash>, log: seq<Hash>, cap: nat, h: Hash)
    requires cap > 0 && Mirrors(active, archive, log, cap)
    ensures h in active <==> h in Active(log, cap)
    ensures h in active || h in archive <==> h in Window(log, cap)
  {
    hide Generation, ActiveStart, WindowStart;
    Generations(|log|, cap);
    assert Window(log, cap) == log[WindowStart(|log|, cap)..ActiveStart(|log|, cap)] + Active(log, cap);
  }

  /** A full active generation takes the place of the archive; otherwise it grows. */
  lemma MirrorsStep(active: set<Hash>, archive: set<Hash>, log: seq<Hash>, cap: nat, h: Hash)
    requires cap > 0 && Mirrors(active, archive, log, cap) && h !in active
    ensures if |active| == cap then Mirrors({} + {h}, active, log + [h], cap)
            else Mirrors(active + {h}, archive, log + [h], cap)
  {
    hide Generation, ActiveStart, WindowStart;
    var n, a, w := |log|, ActiveStart(|log|, cap), WindowStart(|log|, cap);
    Generations(n, cap);
    StartsStep(n, cap);
    if |active| == cap {
      assert (log + [h])[a..n] == log[a..];
    } else {
      assert (log + [h])[w..a] == log[w..a];
      assert (log + [h])[a..] == log[a..] + [h];
    }
  }

  class ReplayCache {
    const capacity: nat
    var active: set<Hash>
    var archive: set<Hash>
    /** Every hash that was ever inserted, in order. */
    ghost var log: seq<Hash>

    ghost predicate Valid()
      reads this
    {
      if capacity == 0 then log == [] else Mirrors(active, archive, log, capacity)
    }

    constructor (capacity: nat)
      requires capacity <= MAX_CAPACITY  // otherwise: panic
      ensures Valid() && this.capacity == capacity && log == []
    {
      this.capacity, active, archive, log := capacity, {}, {}, [];
    }

    /** Adds a hash; false if it is remembered already. */
    method AddHash(h: Hash) returns (isNew: bool)
      requires Valid()
      modifies this
      ensures Valid()
      ensures isNew == Answer(old(log), capacity, h)
      ensures capacity == 0 || h !in old(log) ==> isNew
      ensures log == Inserted(old(log), capacity, h)
    {
      if capacity == 0 {
        return true;
      }
      hide Mirrors, Active, Window;
      NeverInsertedIsNew(log, capacity, h);
      MirrorsWindow(active, archive, log, capacity, h);
      if h in active {
        return false;
      }
      var inArchive := h in archive;
      MirrorsStep(active, archive, log, capacity, h);
      if |active| == capacity {
        // The archive is discarded and the active set takes its place.
        archive := active;
        active := {};
      }
      active := active + {h};
      log := log + [h];
      return !inArchive;
    }

    /** What other connections add meanwhile, each under the lock. */
    method Others(hs: seq<Hash>)
      requires Valid()
      modifies this
      ensures Valid() && log == InsertedAll(old(log), capacity, hs)
    {
      hide Inserted, Valid;
      var i := 0;
      while i < |hs|
        invariant i <= |hs| && Valid() && InsertedAll(log, capacity, hs[i..]) == InsertedAll(old(log), capacity, hs)
      {
        var isNew := AddHash(hs[i]);
        assert hs[i..][1..] == hs[i + 1..];
        i := i + 1;
      }
    }

    /** Adds a handshake; false if it is remembered already. */
    method Add(id: Bytes, salt: Bytes) returns (isNew: bool)
      requires Valid()
      modifies this
      ensures Valid()
      ensures isNew == Answer(old(log), capacity, HashOf(id, salt))
      ensures capacity == 0 || HashOf(id, salt) !in old(log) ==> isNew
      ensures log == Inserted(old(log), capacity, HashOf(id, salt))
    {
      if capacity == 0 {
        return true;
      }
      var h := PreHash(id, salt);
      isNew := AddHash(h);
    }
  }

  // -------------------------------------------------------------------- hashes

  /** The exclusive-or of the bytes of s whose index is j modulo 4. */
  function Column(s: Bytes, j: nat): byte {
    if s == [] then 0
    else Column(s[..|s| - 1], j) ^ (if (|s| - 1) % 4 == j then s[|s| - 1] else 0)
  }

  function BigEndian32(b: Bytes): Hash
    requires |b| == 4
  {
    ((b[0] as bv32) << 24) | ((b[1] as bv32) << 16) | ((b[2] as bv32) << 8) | (b[3] as bv32)
  }

  function HashOf(id: Bytes, salt: Bytes): Hash {
    BigEndian32(Columns(id, salt))
  }

  /** Folds s into the four bytes of buf. */
  method XorInto(buf: array<byte>, s: Bytes)
    requires buf.Length == 4
    modifies buf
    ensures forall j :: 0 <= j < 4 ==> buf[j] == old(buf[j]) ^ Column(s, j)
  {
    var i := 0;
    while i < |s|
      invariant 0 <= i <= |s|
      invariant forall j :: 0 <= j < 4 ==> buf[j] == old(buf[j]) ^ Column(s[..i], j)
    {
      buf[i % 4] := buf[i % 4] ^ s[i];
      assert s[..i + 1][..i] == s[..i];
      i := i + 1;
    }
    assert s[..i] == s;
  }

  method PreHash(id: Bytes, salt: Bytes) returns (h: Hash)
    ensures h == HashOf(id, salt)
  {
    hide Column, BigEndian32;
    var buf := new byte[4](_ => 0);
    XorInto(buf, id);
    XorInto(buf, salt);
    assert buf[..] == Columns(id, salt);
    h := BigEndian32(buf[..]);
  }

  /** Two strings that differ in one index only have different columns there. */
  lemma {:induction false} ColumnSeparates(s: Bytes, t: Bytes, j: nat, i: nat)
    requires |s| == |t| && i < |s| && i % 4 == j
    requires forall k :: 0 <= k < |s| && k % 4 == j && k != i ==> s[k] == t[k]
    ensures Column(s, j) == Column(t, j) ==> s[i] == t[i]
  {
    var n := |s| - 1;
    if i == n {
      ColumnAgrees(s[..n], t[..n], j);
      XorCancels(Column(s[..n], j), s[n], t[n]);
    } else {
      ColumnSeparates(s[..n], t[..n], j, i);
      if n % 4 == j {
        XorCancels(s[n], Column(s[..n], j), Column(t[..n], j));
      }
    }
  }

  lemma {:induction false} ColumnAgrees(s: Bytes, t: Bytes, j: nat)
    requires |s| == |t|
    requires forall k :: 0 <= k < |s| && k % 4 == j ==> s[k] == t[k]
    ensures Column(s, j) == Column(t, j)
  {
    if s != [] {
      ColumnAgrees(s[..|s| - 1], t[..|t| - 1], j);
    }
  }

  lemma XorCancels(a: byte, b: byte, c: byte)
    ensures a ^ b == a ^ c ==> b == c
    ensures b ^ a == c ^ a ==> b == c
    ensures a ^ 0 == a
  {
  }

  lemma BigEndianInjective(a: Bytes, b: Bytes)
    requires |a| == |b| == 4 && BigEndian32(a) == BigEndian32(b)
    ensures a == b
  {
    assert a[0] == b[0] && a[1] == b[1] && a[2] == b[2] && a[3] == b[3];
  }

  /** The four bytes that are hashed. */
  function Columns(id: Bytes, salt: Bytes): (b: Bytes)
    ensures |b| == 4
  {
    seq(4, j requires 0 <= j < 4 => Column(id, j) ^ Column(salt, j))
  }

  lemma ColumnAt(id: Bytes, salt: Bytes, j: nat)
    requires j < 4
    ensures Columns(id, salt)[j] == Column(id, j) ^ Column(salt, j)
  {
    hide Column;
  }

  /** Equal hashes have equal columns. */
  lemma SameColumns(id: Bytes, s: Bytes, id': Bytes, s': Bytes, j: nat)
    requires HashOf(id, s) == HashOf(id', s') && j < 4
    ensures Column(id, j) ^ Column(s, j) == Column(id', j) ^ Column(s', j)
  {
    hide Column, BigEndian32, Columns;
    BigEndianInjective(Columns(id, s), Columns(id', s'));
    ColumnAt(id, s, j);
    ColumnAt(id', s', j);
  }

  /** Do two strings differ only within four consecutive bytes? */
  predicate Nearby(s: Bytes, t: Bytes, p: nat) {
    |s| == |t| && p + 4 <= |s| && forall k :: 0 <= k < |s| && !(p <= k < p + 4) ==> s[k] == t[k]
  }

  lemma NearbyColumns(s: Bytes, t: Bytes, p: nat)
    requires Nearby(s, t, p) && forall j :: 0 <= j < 4 ==> Column(s, j) == Column(t, j)
    ensures s == t
  {
    forall i | p <= i < p + 4 ensures s[i] == t[i] {
      ColumnSeparates(s, t, i % 4, i);
    }
  }

  /** Salts of one key that differ only within four consecutive bytes never collide. */
  lemma NearbySaltsDoNotCollide(id: Bytes, s: Bytes, t: Bytes, p: nat)
    requires Nearby(s, t, p)
    ensures HashOf(id, s) == HashOf(id, t) ==> s == t
  {
    hide HashOf, Column;
    if HashOf(id, s) == HashOf(id, t) {
      forall j | 0 <= j < 4 ensures Column(s, j) == Column(t, j) {
        SameColumns(id, s, id, t, j);
        XorCancels(Column(id, j), Column(s, j), Column(t, j));
      }
      NearbyColumns(s, t, p);
    }
  }

  /** Nor do keys whose ids differ so, on one salt. */
  lemma NearbyIdsDoNotCollide(id: Bytes, id': Bytes, s: Bytes, p: nat)
    requires Nearby(id, id', p)
    ensures HashOf(id, s) == HashOf(id', s) ==> id == id'
  {
    hide HashOf, Column;
    if HashOf(id, s) == HashOf(id', s) {
      forall j | 0 <= j < 4 ensures Column(id, j) == Column(id', j) {
        SameColumns(id, s, id', s, j);
        XorCancels(Column(s, j), Column(id, j), Column(id', j));
      }
      NearbyColumns(id, id', p);
    }
  }
}
