/** The list of access keys: snapshots ordered for a client, and moving keys to the front. */
module CipherList {
  import opened ByteSeqs
  import opened Crypto
  import opened ServerSalt

  /** A client address in canonical form. */
  type Ip = Bytes

  /** A list element with its entry. All but the last client address is constant. */
  class CipherEntry {
    const id: Bytes
    const cipher: Cipher
    const saltGenerator: ServerSaltGenerator
    var lastClientIP: Option<Ip>

    constructor (id: Bytes, cipher: Cipher, tag: Bytes -> Bytes)
      requires forall p: Bytes :: |tag(p)| >= MARK_LEN
      ensures this.id == id && this.cipher == cipher && this.saltGenerator == GeneratorFor(cipher, tag)
      ensures lastClientIP.None?
    {
      this.id, this.cipher, this.saltGenerator := id, cipher, GeneratorFor(cipher, tag);
      lastClientIP := None;
    }

    predicate Matches(clientIP: Option<Ip>)
      reads this
    {
      clientIP.Some? && lastClientIP == clientIP
    }
  }

  // ------------------------------------------------------------ pure list facts

  /** The elements whose flag is `want`, in order. */
  function Where<T>(es: seq<T>, flags: seq<bool>, want: bool): (r: seq<T>)
    requires |flags| == |es|
    ensures |r| <= |es|
  {
    if es == [] then []
    else
      var n := |es| - 1;
      var front := Where(es[..n], flags[..n], want);
      if flags[n] == want then front + [es[n]] else front
  }

  /** The flagged elements first, then the others, each group in list order. */
  function Partition<T>(es: seq<T>, flags: seq<bool>): seq<T>
    requires |flags| == |es|
  {
    Where(es, flags, true) + Where(es, flags, false)
  }

  lemma WhereNone<T>(es: seq<T>, flags: seq<bool>, want: bool)
    requires |flags| == |es| == 0
    ensures Where(es, flags, want) == []
  {
  }

  lemma {:induction false} PartitionLoop<T>(es: seq<T>, flags: seq<bool>, i: nat, want: bool)
    requires |flags| == |es| && i < |es|
    ensures var front := Where(es[..i], flags[..i], want);
      Where(es[..i + 1], flags[..i + 1], want) == if flags[i] == want then front + [es[i]] else front
  {
    assert es[..i + 1][..i] == es[..i] && flags[..i + 1][..i] == flags[..i];
  }

  lemma {:induction false} WhereMonotone<T>(es: seq<T>, flags: seq<bool>, i: nat, want: bool)
    requires |flags| == |es| && i <= |es|
    ensures |Where(es[..i], flags[..i], want)| <= |Where(es, flags, want)|
    decreases |es| - i
  {
    if i == |es| {
      assert es[..i] == es && flags[..i] == flags;
    } else {
      PartitionLoop(es, flags, i, want);
      WhereMonotone(es, flags, i + 1, want);
    }
  }

  lemma {:induction false} WherePartitions<T>(es: seq<T>, flags: seq<bool>)
    requires |flags| == |es|
    ensures multiset(Where(es, flags, true)) + multiset(Where(es, flags, false)) == multiset(es)
    ensures |Where(es, flags, true)| + |Where(es, flags, false)| == |es|
  {
    if es != [] {
      var n := |es| - 1;
      WherePartitions(es[..n], flags[..n]);
      WhereSnoc(es, flags, true);
      WhereSnoc(es, flags, false);
      MultisetSnoc(es);
    }
  }

  lemma MultisetSnoc<T>(es: seq<T>)
    requires es != []
    ensures multiset(es) == multiset(es[..|es| - 1]) + multiset{es[|es| - 1]}
  {
    assert es == es[..|es| - 1] + [es[|es| - 1]];
  }

  lemma WhereSnoc<T>(es: seq<T>, flags: seq<bool>, want: bool)
    requires |flags| == |es| > 0
    ensures var n := |es| - 1;
      multiset(Where(es, flags, want))
      == multiset(Where(es[..n], flags[..n], want)) + if flags[n] == want then multiset{es[n]} else multiset{}
  {
  }

  /** A partition rearranges: nothing is lost and nothing is added. */
  lemma PartitionIsPermutation<T>(es: seq<T>, flags: seq<bool>)
    requires |flags| == |es|
    ensures multiset(Partition(es, flags)) == multiset(es)
    ensures |Partition(es, flags)| == |es|
  {
    WherePartitions(es, flags);
  }

  /** The selection keeps the order: it is es at increasing indices, precisely those with this flag. */
  lemma {:induction false} WhereKeepsOrder<T>(es: seq<T>, flags: seq<bool>, want: bool) returns (at: seq<nat>)
    requires |flags| == |es|
    ensures |at| == |Where(es, flags, want)|
    ensures forall k :: 0 <= k < |at| ==> at[k] < |es| && flags[at[k]] == want && Where(es, flags, want)[k] == es[at[k]]
    ensures forall j, k :: 0 <= j < k < |at| ==> at[j] < at[k]
    ensures forall i :: 0 <= i < |es| && flags[i] == want ==> i in at
  {
    at := [];
    if es != [] {
      var n := |es| - 1;
      at := WhereKeepsOrder(es[..n], flags[..n], want);
      if flags[n] == want {
        at := at + [n];
      }
    }
  }

  /** Without a client address nothing is preferred. */
  lemma {:induction false} NoPreference<T>(es: seq<T>, flags: seq<bool>)
    requires |flags| == |es| && forall i :: 0 <= i < |flags| ==> !flags[i]
    ensures Partition(es, flags) == es && Where(es, flags, false) == es
  {
    NoneFlagged(es, flags);
    if es != [] {
      NoPreference(es[..|es| - 1], flags[..|es| - 1]);
    }
  }

  /** The first flagged element comes first in the partition. */
  lemma {:induction false} FirstFlaggedComesFirst<T>(es: seq<T>, flags: seq<bool>, p: nat)
    requires |flags| == |es| > p && flags[p] && forall i :: 0 <= i < p ==> !flags[i]
    ensures |Partition(es, flags)| > 0 && Partition(es, flags)[0] == es[p]
    ensures |Where(es, flags, true)| > 0 && Where(es, flags, true)[0] == es[p]
  {
    var n := |es| - 1;
    if p < n {
      FirstFlaggedComesFirst(es[..n], flags[..n], p);
    } else {
      NoneFlagged(es[..n], flags[..n]);
    }
  }

  lemma {:induction false} NoneFlagged<T>(es: seq<T>, flags: seq<bool>)
    requires |flags| == |es| && forall i :: 0 <= i < |flags| ==> !flags[i]
    ensures Where(es, flags, true) == []
  {
    if es != [] {
      NoneFlagged(es[..|es| - 1], flags[..|es| - 1]);
    }
  }

  predicate Distinct<T(==)>(es: seq<T>) {
    forall i, j :: 0 <= i < j < |es| ==> es[i] != es[j]
  }

  /** `MoveToFront`: an element of another list is left alone. */
  function MovedToFront<T(==)>(es: seq<T>, e: T): seq<T> {
    if e in es then [e] + Without(es, e) else es
  }

  function Without<T(==)>(es: seq<T>, e: T): seq<T> {
    if es == [] then [] else if es[0] == e then es[1..] else [es[0]] + Without(es[1..], e)
  }

  lemma {:induction false} WithoutRemovesOne<T>(es: seq<T>, e: T)
    requires e in es
    ensures multiset(es) == multiset(Without(es, e)) + multiset{e}
  {
    assert es == [es[0]] + es[1..];
    if es[0] != e {
      WithoutRemovesOne(es[1..], e);
    }
  }

  /** Moving to the front leaves the others in their order. */
  lemma {:induction false} MoveKeepsOrder<T>(before: seq<T>, e: T, after: seq<T>)
    requires e !in before
    ensures Without(before + ([e] + after), e) == before + after
    ensures MovedToFront(before + ([e] + after), e) == [e] + (before + after)
  {
    var es := before + ([e] + after);
    if before == [] {
      assert es == [e] + after && es[1..] == after && before + after == after;
    } else {
      assert before[0] in before;
      assert es[1..] == before[1..] + ([e] + after);
      MoveKeepsOrder(before[1..], e, after);
      assert before + after == [before[0]] + (before[1..] + after);
    }
  }

  lemma MoveIsPermutation<T>(es: seq<T>, e: T)
    ensures multiset(MovedToFront(es, e)) == multiset(es)
  {
    if e in es {
      WithoutRemovesOne(es, e);
    }
  }

  lemma {:induction false} PermutationKeepsDistinct<T>(a: seq<T>, b: seq<T>)
    requires multiset(a) == multiset(b) && Distinct(a)
    ensures Distinct(b)
  {
    forall i, j | 0 <= i < j < |b| ensures b[i] != b[j] {
      if b[i] == b[j] {
        OccursTwice(b, i, j);
        OccursOnce(a, b[i]);
      }
    }
  }

  lemma OccursTwice<T>(b: seq<T>, i: nat, j: nat)
    requires i < j < |b| && b[i] == b[j]
    ensures multiset(b)[b[i]] >= 2
  {
    assert b == b[..j] + [b[j]] + b[j + 1..];
    assert b[..j][i] == b[i];
    assert b[i] in multiset(b[..j]);
  }

  lemma {:induction false} OccursOnce<T>(a: seq<T>, x: T)
    requires Distinct(a)
    ensures multiset(a)[x] <= 1
  {
    if a != [] {
      OccursOnce(a[1..], x);
      assert a == [a[0]] + a[1..];
      if a[0] == x {
        assert x !in a[1..];
      }
    }
  }

  // -------------------------------------------------------------- whole histories

  /** What other threads may do to a list. Marks may concern elements of a replaced list. */
  datatype Event<T> = Mark(e: T, clientIP: Option<Ip>) | Replace(contents: seq<T>)

  function After<T(==)>(list: seq<T>, history: seq<Event<T>>): seq<T> {
    if history == [] then list
    else
      var before := After(list, history[..|history| - 1]);
      match history[|history| - 1]
      case Mark(e, _) => MovedToFront(before, e)
      case Replace(contents) => contents
  }

  /** The elements that are marked in a history. */
  function Marked<T(==)>(history: seq<Event<T>>): set<T> {
    set i | 0 <= i < |history| && history[i].Mark? :: history[i].e
  }

  /** The contents of the latest update. */
  function Configured<T>(list: seq<T>, history: seq<Event<T>>): seq<T> {
    if history == [] then list
    else if history[|history| - 1].Replace? then history[|history| - 1].contents
    else Configured(list, history[..|history| - 1])
  }

  /** At any time the list is a permutation of what was configured last. */
  lemma {:induction false} AlwaysWhatWasConfigured<T>(list: seq<T>, history: seq<Event<T>>)
    ensures multiset(After(list, history)) == multiset(Configured(list, history))
  {
    if history != [] && history[|history| - 1].Mark? {
      var h := history[..|history| - 1];
      AlwaysWhatWasConfigured(list, h);
      MoveIsPermutation(After(list, h), history[|history| - 1].e);
    }
  }

  /** The client for which x was marked last. */
  function UsedBy<T(==)>(history: seq<Event<T>>, x: T, before: Option<Ip>): Option<Ip> {
    if history == [] then before
    else
      match history[|history| - 1]
      case Mark(e, clientIP) => if e == x then clientIP else UsedBy(history[..|history| - 1], x, before)
      case Replace(_) => UsedBy(history[..|history| - 1], x, before)
  }

  /** The list is not replaced, and this client uses e and no other element. */
  predicate UsesOnly<T(==)>(history: seq<Event<T>>, e: T, clientIP: Ip) {
    forall i :: 0 <= i < |history| ==>
      history[i].Mark? && (history[i].e == e <==> history[i].clientIP == Some(clientIP))
  }

  lemma {:induction false} UsedByOthers<T>(history: seq<Event<T>>, e: T, clientIP: Ip, x: T, before: Option<Ip>)
    requires UsesOnly(history, e, clientIP)
    ensures x == e && before == Some(clientIP) ==> UsedBy(history, x, before) == Some(clientIP)
    ensures x != e && x in Marked(history) ==> UsedBy(history, x, before) != Some(clientIP)
  {
    if history != [] {
      UsedByOthers(history[..|history| - 1], e, clientIP, x, before);
    }
  }

  /** Moving another element to the front puts at most that one before es[p]. */
  lemma {:induction false} WithoutKeeps<T>(es: seq<T>, x: T, p: nat) returns (q: nat)
    requires p < |es| && es[p] != x
    ensures q < |Without(es, x)| && Without(es, x)[q] == es[p]
    ensures forall i :: 0 <= i < q ==> Without(es, x)[i] in es[..p]
  {
    if es[0] == x {
      q := p - 1;
    } else if p == 0 {
      q := 0;
    } else {
      q := WithoutKeeps(es[1..], x, p - 1);
      q := q + 1;
      assert es[..p] == [es[0]] + es[1..][..p - 1];
    }
  }

  lemma MovesOneBefore<T>(es: seq<T>, x: T, p: nat) returns (q: nat)
    requires p < |es| && es[p] != x
    ensures var l := MovedToFront(es, x);
      q < |l| && l[q] == es[p] && forall i :: 0 <= i < q ==> l[i] == x || l[i] in es[..p]
  {
    if x in es {
      hide Without;
      q := WithoutKeeps(es, x, p);
      q := q + 1;
    } else {
      q := p;
    }
  }

  /** Before position p there are only other elements that are among the marked ones. */
  ghost predicate OnlyBefore<T>(l: seq<T>, p: nat, e: T, marked: set<T>) {
    p < |l| && l[p] == e && forall i :: 0 <= i < p ==> l[i] != e && l[i] in marked
  }

  lemma OnlyBeforeStep<T>(l: seq<T>, p: nat, e: T, marked: set<T>, x: T) returns (q: nat)
    requires OnlyBefore(l, p, e, marked)
    ensures OnlyBefore(MovedToFront(l, x), q, e, marked + {x})
  {
    if x == e {
      q := 0;
    } else {
      q := MovesOneBefore(l, x, p);
    }
  }

  /** What comes before e after such a history has been marked in it. */
  lemma {:induction false} OnlyMarkedBefore<T>(list: seq<T>, history: seq<Event<T>>, e: T, clientIP: Ip)
    returns (p: nat)
    requires list != [] && list[0] == e && UsesOnly(history, e, clientIP)
    ensures OnlyBefore(After(list, history), p, e, Marked(history))
  {
    if history == [] {
      return 0;
    }
    var front, x := history[..|history| - 1], history[|history| - 1].e;
    p := OnlyMarkedBefore(list, front, e, clientIP);
    p := OnlyBeforeStep(After(list, front), p, e, Marked(front), x);
    assert Marked(front) + {x} <= Marked(history);
  }

  lemma {:induction false} ConfiguredAppend<T>(list: seq<T>, a: seq<Event<T>>, b: seq<Event<T>>)
    ensures Configured(list, a + b) == Configured(Configured(list, a), b)
  {
    if b == [] {
      assert a + b == a;
    } else {
      assert (a + b)[..|a + b| - 1] == a + b[..|b| - 1];
      ConfiguredAppend(list, a, b[..|b| - 1]);
    }
  }

  lemma {:induction false} SameConfigured<T>(a: seq<T>, b: seq<T>, history: seq<Event<T>>)
    requires multiset(a) == multiset(b)
    ensures multiset(Configured(a, history)) == multiset(Configured(b, history))
  {
    if history != [] {
      SameConfigured(a, b, history[..|history| - 1]);
    }
  }

  // ------------------------------------------------------------------ the list

  class KeyList {
    var list: seq<CipherEntry>

    constructor ()
      ensures list == []
    {
      list := [];
    }

    ghost function Flags(clientIP: Option<Ip>): (f: seq<bool>)
      reads this, list
      ensures |f| == |list|
    {
      seq(|list|, i requires 0 <= i < |list| reads this, list => list[i].Matches(clientIP))
    }

    /** One pass over the list: appends the elements that do, or do not, match to a[..start]. */
    method Pass(a: array<CipherEntry?>, start: nat, clientIP: Option<Ip>, want: bool, ghost flags: seq<bool>)
      returns (i: nat)
      requires |flags| == |list| && forall e :: 0 <= e < |list| ==> flags[e] == list[e].Matches(clientIP)
      requires start + |Where(list, flags, want)| <= a.Length
      modifies a
      ensures i == start + |Where(list, flags, want)|
      ensures a[..i] == old(a[..start]) + Where(list, flags, want)
    {
      hide Where, CipherEntry.Matches;
      ghost var taken: seq<CipherEntry> := [];
      WhereNone(list[..0], flags[..0], want);
      i := start;
      for e := 0 to |list|
        invariant taken == Where(list[..e], flags[..e], want)
        invariant i == start + |taken| <= a.Length
        invariant forall k :: 0 <= k < start ==> a[k] == old(a[k])
        invariant forall k :: start <= k < i ==> a[k] == taken[k - start]
      {
        PartitionLoop(list, flags, e, want);
        WhereMonotone(list, flags, e + 1, want);
        if list[e].Matches(clientIP) == want {
          var entry := list[e];
          a[i] := entry;
          i, taken := i + 1, taken + [list[e]];
        }
      }
      assert list[..|list|] == list && flags[..|list|] == flags;
      assert a[..i] == old(a[..start]) + taken;
    }

    /** The keys in the order in which they should be tried for this client. */
    method SnapshotForClientIP(clientIP: Option<Ip>) returns (snapshot: array<CipherEntry?>)
      ensures fresh(snapshot) && snapshot[..] == Partition(list, Flags(clientIP))
    {
      hide Where;
      snapshot := new CipherEntry?[|list|](_ => null);
      ghost var flags := Flags(clientIP);
      WherePartitions(list, flags);
      // First the keys last used by this client, then the others, most recently used first.
      var i := Pass(snapshot, 0, clientIP, true, flags);
      i := Pass(snapshot, i, clientIP, false, flags);
      assert snapshot[..] == snapshot[..i];
    }

    /** Without a client address the keys are tried in the order of the list. */
    lemma NoClient()
      ensures Partition(list, Flags(None)) == list
    {
      NoPreference(list, Flags(None));
    }

    /** Notes that this client used this key. */
    method MarkUsedByClientIP(e: CipherEntry, clientIP: Option<Ip>)
      modifies this, e`lastClientIP
      ensures list == MovedToFront(old(list), e)
      ensures e.lastClientIP == clientIP
    {
      list := MovedToFront(list, e);
      e.lastClientIP := clientIP;
    }

    method Update(contents: seq<CipherEntry>)
      modifies this`list
      ensures list == contents
    {
      list := contents;
    }

    /** What other threads do to the list, each time under its lock. */
    method Others(history: seq<Event<CipherEntry>>)
      modifies this, Marked(history)
      ensures list == After(old(list), history)
      ensures forall x :: x in Marked(history) ==> x.lastClientIP == UsedBy(history, x, old(x.lastClientIP))
    {
      var i := 0;
      while i < |history|
        invariant i <= |history| && list == After(old(list), history[..i])
        invariant forall x :: x in Marked(history) ==>
                    x.lastClientIP == UsedBy(history[..i], x, old(x.lastClientIP))
      {
        match history[i] {
          case Mark(e, clientIP) => MarkUsedByClientIP(e, clientIP);
          case Replace(contents) => Update(contents);
        }
        assert history[..i + 1][..i] == history[..i];
        i := i + 1;
      }
      assert history[..i] == history;
    }

    /**
     * A key marked for a client is the first to be tried for that client, as long
     * as the list is not replaced and that client uses this key and no other.
     */
    method MarkThenSnapshot(e: CipherEntry, clientIP: Ip, meanwhile: seq<Event<CipherEntry>>)
      returns (snapshot: array<CipherEntry?>)
      requires e in list
      modifies this, e`lastClientIP, Marked(meanwhile)
      ensures multiset(snapshot[..]) == multiset(Configured(old(list), meanwhile))
      ensures UsesOnly(meanwhile, e, clientIP) ==> snapshot.Length > 0 && snapshot[0] == e
    {
      hide After, Configured, Partition, UsedBy;
      ghost var was := list;
      MoveIsPermutation(list, e);
      MarkUsedByClientIP(e, Some(clientIP));
      ghost var marked := list;
      SameConfigured(marked, was, meanwhile);
      AlwaysWhatWasConfigured(marked, meanwhile);
      label Used:
      Others(meanwhile);
      if UsesOnly(meanwhile, e, clientIP) {
        forall x | x in Marked(meanwhile) && x != e ensures x.lastClientIP != Some(clientIP) {
          UsedByOthers(meanwhile, e, clientIP, x, old@Used(x.lastClientIP));
        }
        UsedByOthers(meanwhile, e, clientIP, e, Some(clientIP));
        FirstForClient(e, clientIP, marked, meanwhile);
      }
      PartitionIsPermutation(list, Flags(Some(clientIP)));
      snapshot := SnapshotForClientIP(Some(clientIP));
    }

    lemma FirstForClient(e: CipherEntry, clientIP: Ip, marked: seq<CipherEntry>, meanwhile: seq<Event<CipherEntry>>)
      requires marked != [] && marked[0] == e && list == After(marked, meanwhile)
      requires UsesOnly(meanwhile, e, clientIP) && e.lastClientIP == Some(clientIP)
      requires forall x :: x in Marked(meanwhile) && x != e ==> x.lastClientIP != Some(clientIP)
      ensures var first := Partition(list, Flags(Some(clientIP))); first != [] && first[0] == e
    {
      var p := OnlyMarkedBefore(marked, meanwhile, e, clientIP);
      FirstFlaggedComesFirst(list, Flags(Some(clientIP)), p);
    }
  }
}
