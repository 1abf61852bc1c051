/**
 * The two I/O interfaces the codec talks to, as oracles.
 *
 * A `Source` is an `io.Reader`: it hands out its bytes in pieces of its own
 * choosing (possibly empty ones), may deliver its final error together with
 * the last piece, and repeats that error from then on. A `Sink` is an
 * `io.Writer` whose failures, if any, are chosen by a plan. Every statement
 * about them holds for all piece sizes and all plans.
 */
module Io {
  import opened ByteSeqs
  import opened StreamFormat

  /** Writes `data` at index `at` and leaves the rest of the buffer alone. */
  method Store(buf: array<byte>, at: nat, data: Bytes)
    requires at + |data| <= buf.Length
    modifies buf
    ensures buf[at..at + |data|] == data
    ensures forall i :: 0 <= i < buf.Length && !(at <= i < at + |data|) ==> buf[i] == old(buf[i])
  {
    forall i | 0 <= i < |data| {
      buf[at + i] := data[i];
    }
  }

  /** `copy` towards lower indices within one buffer; the two regions may overlap. */
  method CopyDown(buf: array<byte>, dst: nat, src: nat, n: nat)
    requires dst <= src && src + n <= buf.Length
    modifies buf
    ensures buf[dst..dst + n] == old(buf[src..src + n])
    ensures forall i :: 0 <= i < buf.Length && !(dst <= i < dst + n) ==> buf[i] == old(buf[i])
  {
    ghost var was := buf[..];
    var i := 0;
    while i < n
      invariant 0 <= i <= n
      invariant forall j :: dst <= j < dst + i ==> buf[j] == was[j - dst + src]
      invariant forall j :: 0 <= j < buf.Length && !(dst <= j < dst + i) ==> buf[j] == was[j]
    {
      buf[dst + i] := buf[src + i];
      i := i + 1;
    }
  }

  /** The errors a reader may end with. */
  type SourceErr = e: Err | e == Eof || e == UnexpectedEof || e == ReadFailed witness Eof

  /** What is left of the pieces once n bytes of the first have been taken. */
  function LeftOf(pieces: seq<Bytes>, n: nat): seq<Bytes>
    requires pieces != [] ==> n <= |pieces[0]|
  {
    if pieces == [] then []
    else if n == |pieces[0]| then pieces[1..]
    else [pieces[0][n..]] + pieces[1..]
  }

  class Source {
    var pieces: seq<Bytes>
    const end: SourceErr
    const eager: bool

    constructor (pieces: seq<Bytes>, end: SourceErr, eager: bool)
      ensures this.pieces == pieces && this.end == end && this.eager == eager
    {
      this.pieces, this.end, this.eager := pieces, end, eager;
    }

    /** The bytes still to come. */
    ghost function Rest(): Bytes
      reads this
    {
      Flat(pieces)
    }

    /** Bounds the number of further reads that return no error. */
    ghost function Size(): nat
      reads this
    {
      |Rest()| + |pieces|
    }

    /** One call of `Read` with a buffer of `max` bytes. */
    method Next(max: nat) returns (data: Bytes, err: Option<Err>)
      modifies this
      ensures |data| <= max
      ensures old(Rest()) == data + Rest()
      ensures err.Some? ==> err.value == end && pieces == [] && Rest() == []
      ensures err.None? ==> old(pieces) != []
      // As much of the next piece as fits.
      ensures data == if old(pieces) == [] then [] else old(pieces)[0][..Min(|old(pieces)[0]|, max)]
      ensures pieces == LeftOf(old(pieces), |data|)
      ensures err.None? && max > 0 ==> Size() < old(Size())
      ensures Size() <= old(Size())
    {
      if pieces == [] {
        return [], Some(end);
      }
      var head := pieces[0];
      if |head| <= max {
        data, pieces := head, pieces[1..];
        err := if eager && pieces == [] then Some(end) else None;
      } else {
        data, err := head[..max], None;
        ghost var tail := pieces[1..];
        pieces := pieces[0 := head[max..]];
        assert pieces[1..] == tail;
        assert head == data + head[max..];
        assert old(Rest()) == data + head[max..] + Flat(tail);
        assert Rest() == head[max..] + Flat(tail);
      }
    }
  }

  lemma TakeMore(all: Bytes, got: nat, data: Bytes, rest: Bytes)
    requires got <= |all| && all[got..] == data + rest
    ensures got + |data| <= |all| && all[..got + |data|] == all[..got] + data && all[got + |data|..] == rest
  {
    assert all == all[..got] + (data + rest);
  }

  /** `io.ReadFull` into the first n bytes of `buf`. */
  method ReadFull(src: Source, buf: array<byte>, n: nat) returns (err: Option<Err>)
    requires n <= buf.Length
    modifies src, buf
    ensures |old(src.Rest())| >= n ==>
              err.None? && buf[..n] == old(src.Rest())[..n] && src.Rest() == old(src.Rest())[n..]
    ensures |old(src.Rest())| < n ==>
              err == Some(ReadError(|old(src.Rest())|, src.end)) && src.Rest() == []
    ensures forall i :: n <= i < buf.Length ==> buf[i] == old(buf[i])
  {
    hide LeftOf, Source.Rest, Source.Size;
    ghost var all := src.Rest();
    var got := 0;
    var e: Option<Err> := None;
    while got < n && e.None?
      invariant 0 <= got <= n
      invariant got <= |all| && buf[..got] == all[..got] && src.Rest() == all[got..]
      invariant e.Some? ==> e.value == src.end && src.Rest() == []
      invariant forall i :: n <= i < buf.Length ==> buf[i] == old(buf[i])
      decreases src.Size(), e.None?
    {
      var data;
      data, e := src.Next(n - got);
      ghost var before := buf[..got];
      Store(buf, got, data);
      assert buf[..got] == before;
      assert buf[..got + |data|] == before + data;
      TakeMore(all, got, data, src.Rest());
      got := got + |data|;
    }
    if got >= n {
      return None;
    }
    assert |all| == got;
    return Some(ReadError(got, e.value));
  }

  /** How many of the first n writes the plan lets fail. */
  ghost function Failures(plan: nat -> Option<nat>, n: nat): nat {
    if n == 0 then 0 else Failures(plan, n - 1) + if plan(n - 1).Some? then 1 else 0
  }

  /** There are more failures at n than at m if and only if the plan lets a write from m on fail. */
  lemma {:induction false} FailuresSince(plan: nat -> Option<nat>, m: nat, n: nat)
    ensures Failures(plan, m) < Failures(plan, n) <==> exists i :: m <= i < n && plan(i).Some?
    decreases m + n
  {
    if m < n {
      FailuresSince(plan, m, n - 1);
      assert plan(n - 1).Some? ==> Failures(plan, n - 1) < Failures(plan, n);
      NoFewerFailures(plan, m, n - 1);
    } else {
      NoFewerFailures(plan, n, m);
    }
  }

  lemma {:induction false} NoFewerFailures(plan: nat -> Option<nat>, m: nat, n: nat)
    requires m <= n
    ensures Failures(plan, m) <= Failures(plan, n)
  {
    if m < n {
      NoFewerFailures(plan, m, n - 1);
    }
  }

  class Sink {
    var received: Bytes
    var failures: nat
    var calls: nat
    const plan: nat -> Option<nat>
    /** Everything ever passed to `Write`. */
    ghost var attempted: Bytes

    constructor (plan: nat -> Option<nat>)
      ensures Valid() && received == [] && attempted == [] && failures == 0 && this.plan == plan
    {
      received, failures, calls, attempted := [], 0, 0, [];
      this.plan := plan;
    }

    /** The failures counted are those of the plan, and without any nothing is lost. */
    ghost predicate Valid()
      reads this
    {
      failures == Failures(plan, calls) && (failures == 0 ==> received == attempted)
    }

    /** Does no write ever fail? */
    ghost predicate NeverFails() {
      forall i :: plan(i).None?
    }

    lemma NoFailures()
      requires Valid() && NeverFails()
      ensures failures == 0
    {
      FailuresSince(plan, 0, calls);
    }

    /** One call of `Write`; a failing call may have written any prefix. */
    method Write(data: Bytes) returns (n: nat, ok: bool)
      requires Valid()
      modifies this
      ensures Valid() && n <= |data|
      ensures attempted == old(attempted) + data && received == old(received) + data[..n]
      ensures ok <==> plan(old(calls)).None?
      ensures calls == old(calls) + 1
      ensures if ok then n == |data| && failures == old(failures) else failures == old(failures) + 1
    {
      match plan(calls) {
        case None =>
          n, ok := |data|, true;
          assert data[..n] == data;
        case Some(m) =>
          n, ok, failures := Min(m, |data|), false, failures + 1;
      }
      calls := calls + 1;
      received, attempted := received + data[..n], attempted + data;
    }
  }
}
