/** Facts about sets and maps. */
module Collections {

  /** A nonempty set has a member; used where a map is iterated in no particular order. */
  lemma Member<T>(s: set<T>) returns (x: T)
    requires s != {}
    ensures x in s
  {
    x :| x in s;
  }

  lemma KeyOf<K, V>(m: map<K, V>, v: V) returns (k: K)
    requires v in m.Values
    ensures k in m && m[k] == v
  {
    k :| k in m && m[k] == v;
  }

  lemma SameMap<K, V>(a: map<K, V>, b: map<K, V>)
    requires a.Keys == b.Keys && forall k :: k in a ==> a[k] == b[k]
    ensures a == b
  {
  }

  /** Two sets that agree but for k have the same size but for k. */
  lemma CardUpdate<T>(a: set<T>, b: set<T>, k: T)
    requires a - {k} == b - {k}
    ensures |b| - (if k in b then 1 else 0) == |a| - (if k in a then 1 else 0)
  {
    assert a == (a - {k}) + if k in a then {k} else {};
    assert b == (b - {k}) + if k in b then {k} else {};
  }

  lemma TwoMembers<T>(a: set<T>, i: T, j: T)
    requires i in a && j in a && i != j
    ensures |a| >= 2
  {
    CardUpdate(a, a - {i}, i);
    assert j in a - {i};
  }

  /** There is always a number that has not been used. */
  lemma {:induction false} Unused(s: set<nat>) returns (n: nat)
    ensures n !in s && forall m :: m in s ==> m < n
    decreases |s|
  {
    n := 0;
    if s != {} {
      var x := Member(s);
      var above := Unused(s - {x});
      n := if x >= above then x + 1 else above;
      assert forall m :: m in s ==> m == x || m in s - {x};
    }
  }
}
