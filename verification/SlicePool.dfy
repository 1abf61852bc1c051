/**
 * The buffer pool: buffers are lent to `LazySlice`s, each of which holds at
 * most one at a time. The panics of the original are preconditions here, so
 * verifying the callers shows that they never happen.
 */
module SlicePool {
  import opened ByteSeqs

  class Pool {
    const len: nat
    /** Buffers that have been put back. */
    var free: set<array<byte>>
    /** Every buffer this pool ever made. */
    ghost var made: set<array<byte>>
    /** Every LazySlice of this pool. */
    ghost var slices: set<LazySlice>

    /** No buffer is lent twice, and none is both lent and free. */
    ghost predicate Valid()
      reads this, slices
    {
      && free <= made
      && (forall b :: b in made ==> b.Length == len)
      && (forall s :: s in slices ==> s.pool == this)
      && (forall s :: s in slices && s.slice != null ==> s.slice in made && s.slice !in free)
      && (forall s, t :: s in slices && t in slices && s != t && s.slice != null ==> s.slice != t.slice)
    }

    constructor (len: nat)
      ensures Valid() && this.len == len && slices == {} && made == {} && free == {}
    {
      this.len, free, made, slices := len, {}, {}, {};
    }

    /** What use of the pool does to it: it only grows, by new buffers and new slices. */
    twostate predicate Grown()
      reads this, slices
    {
      && Valid() && old(slices) <= slices && old(made) <= made
      && fresh(slices - old(slices)) && fresh(made - old(made))
      && forall b :: b in free ==> b in old(free) || fresh(b)
    }

    /** Any free buffer, or a new one. */
    method Get() returns (b: array<byte>)
      requires Valid()
      modifies this`free, this`made
      ensures Valid() && b in made && b !in free && b.Length == len
      ensures forall s :: s in slices ==> s.slice != b
      ensures b in old(free) || fresh(b)
      ensures fresh(made - old(made)) && old(made) <= made && free <= old(free)
    {
      var reuse: bool := *;
      if reuse && free != {} {
        b :| b in free;
        free := free - {b};
      } else {
        b := new byte[len](_ => 0);
        made := made + {b};
      }
    }

    method Put(b: array<byte>)
      requires b.Length == len  // otherwise: panic "Buffer length mismatch"
      modifies this`free
      ensures free == old(free) + {b}
    {
      free := free + {b};
    }
  }

  class LazySlice {
    var slice: array?<byte>
    const pool: Pool

    constructor (pool: Pool)
      requires pool.Valid()
      modifies pool`slices
      ensures pool.Valid() && this.pool == pool && slice == null
      ensures pool.slices == old(pool.slices) + {this}
    {
      this.pool, slice := pool, null;
      new;
      pool.slices := pool.slices + {this};
    }

    ghost function Held(): set<array<byte>>
      reads this
    {
      if slice == null then {} else {slice}
    }

    method Acquire() returns (b: array<byte>)
      requires pool.Valid() && this in pool.slices
      requires slice == null  // otherwise: panic "buffer already acquired"
      modifies this, pool`free, pool`made
      ensures pool.Valid() && slice == b && b.Length == pool.len && b in pool.made
      ensures b in old(pool.free) || fresh(b)
      ensures fresh(pool.made - old(pool.made)) && old(pool.made) <= pool.made
      ensures pool.free <= old(pool.free)
    {
      b := pool.Get();
      slice := b;
    }

    method Release()
      requires pool.Valid() && this in pool.slices
      modifies this, pool`free
      ensures pool.Valid() && slice == null
      ensures pool.free == old(pool.free) + old(Held())
    {
      if slice != null {
        pool.Put(slice);
        slice := null;
      }
    }
  }
}
