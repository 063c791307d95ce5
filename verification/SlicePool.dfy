/** A pool of equally long buffers, and the one-buffer box through which it is used. */
module SlicePool {
  import opened Io

  class Pool {
    const len: nat
    var free: set<array<byte>>

    constructor (len: nat)
      ensures Valid() && this.len == len && free == {}
    {
      this.len, free := len, {};
    }

    ghost predicate Valid()
      reads this
    {
      forall b :: b in free ==> b.Length == len
    }

    /** An idle buffer, or a new one. */
    method Get() returns (b: array<byte>)
      requires Valid()
      modifies this
      ensures Valid() && b.Length == len && b !in free
      ensures if b in old(free) then free == old(free) - {b} else fresh(b) && free == old(free)
    {
      if free == {} {
        b := new byte[len];
      } else {
        b :| b in free;
        free := free - {b};
      }
    }

    /** The Go method panics on a buffer of the wrong length, so a caller has to bring one of the right length. */
    method Put(b: array<byte>)
      requires Valid() && b.Length == len
      modifies this
      ensures Valid() && free == old(free) + {b}
    {
      free := free + {b};
    }
  }

  /** Holds no buffer or one; `Acquire` on a full box is the other panic of the Go package. */
  class LazySlice {
    const pool: Pool
    var slice: array?<byte>

    constructor (pool: Pool)
      requires pool.Valid()
      ensures Valid() && this.pool == pool && slice == null
    {
      this.pool, slice := pool, null;
    }

    /** A held buffer has the pool's length and is not idle in the pool. */
    ghost predicate Valid()
      reads this, pool
    {
      pool.Valid() && (slice != null ==> slice.Length == pool.len && slice !in pool.free)
    }

    /** Every buffer the box or its pool can reach. */
    ghost function Buffers(): (s: set<array<byte>>)
      reads this, pool
    {
      if slice == null then pool.free else pool.free + {slice}
    }

    method Acquire()
      requires Valid() && slice == null
      modifies this, pool
      ensures Valid() && slice != null
      ensures pool.free <= old(pool.free) && (slice in old(pool.free) || fresh(slice))
    {
      slice := pool.Get();
    }

    method Release()
      requires Valid()
      modifies this, pool
      ensures Valid() && slice == null && pool.free == old(Buffers())
    {
      if slice != null {
        pool.Put(slice);
        slice := null;
      }
    }
  }
}
