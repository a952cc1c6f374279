/**
 * The bounded free list of internal/pool.go. Buffers come back with whatever bytes they last held.
 * `live` records the buffers that were handed out and not yet offered back. PutBuffer takes any buffer, as
 * the code does, and says when that keeps the list sound: offering a live one always does.
 */
module BufferPool {
  import opened Bytes

  const BUFFER_POOL_MAX := 0x10_0000
  const POOL_SLOTS := 64

  /** The pool before and after: it stays well formed and gains only new buffers. */
  twostate predicate PoolKept(pool: Pool)
    reads pool
  {
    && pool.Valid()
    && forall i :: 0 <= i < |pool.free| ==> pool.free[i] in old(pool.free) || fresh(pool.free[i])
  }

  /** copy(buf[off:], bytes), where it fits. */
  method CopyInto(buf: array<byte>, off: nat, bytes: seq<byte>)
    requires off + |bytes| <= buf.Length
    modifies buf
    ensures buf[..off + |bytes|] == old(buf[..off]) + bytes
    ensures buf[off + |bytes|..] == old(buf[off + |bytes|..])
  {
    forall k | 0 <= k < |bytes| {
      buf[off + k] := bytes[k];
    }
  }

  class Pool {
    var free: seq<array<byte>>
    ghost var live: set<array<byte>>

    /** Pooled buffers are distinct, of a pooled size, and none of them is in anybody's hands. */
    ghost predicate Valid()
      reads this
    {
      && |free| <= POOL_SLOTS
      && Distinct(free)
      && forall b :: b in free ==> 0 < b.Length <= BUFFER_POOL_MAX && b !in live
    }

    constructor ()
      ensures Valid() && free == [] && live == {}
    {
      free, live := [], {};
    }

    /** GetBuffer: at least `size` bytes with arbitrary contents, used by nobody else. */
    method GetBuffer(size: nat) returns (b: array<byte>)
      requires Valid()
      modifies this
      ensures Valid()
      ensures b.Length >= size
      ensures if b in old(free) then 0 < b.Length <= BUFFER_POOL_MAX else fresh(b) && b.Length == size
      ensures b !in old(live) && live == old(live) + {b}
      ensures |free| <= |old(free)| && forall i :: 0 <= i < |free| ==> free[i] in old(free)
      ensures size > BUFFER_POOL_MAX || old(free) == [] ==> fresh(b) && free == old(free)
      ensures size <= BUFFER_POOL_MAX && old(free) != [] ==>
                && free == old(free)[1..]
                && if old(free)[0].Length >= size then b == old(free)[0] else fresh(b)
    {
      if size > BUFFER_POOL_MAX {
        b := new byte[size];
        live := live + {b};
        return;
      }
      if free != [] {
        b := free[0];
        free := free[1..];
        if b.Length >= size {
          live := live + {b};
          return;
        }
      }
      b := new byte[size];
      live := live + {b};
    }

    /** GetBuffer with a negative size: the front of the list is taken, and then the slice panics. */
    method GetNegative()
      requires Valid()
      modifies this
      ensures Valid()
      ensures if old(free) == [] then free == [] && live == old(live)
              else free == old(free)[1..] && live == old(live) + {old(free)[0]}
    {
      if free != [] {
        live := live + {free[0]};
        free := free[1..];
      }
    }

    /** Whether PutBuffer has use for the buffer: it is of a pooled size and there is a slot. */
    predicate Keeps(b: array<byte>)
      reads this
    {
      0 < b.Length <= BUFFER_POOL_MAX && |free| < POOL_SLOTS
    }

    /**
     * PutBuffer: the buffer is kept if there is use for it, and dropped otherwise. The list stays sound
     * unless the buffer was in it already, which a live one never is.
     */
    method PutBuffer(b: array<byte>)
      requires Valid()
      modifies this
      ensures b in old(live) ==> Valid()
      ensures Valid() <==> !(old(Keeps(b)) && b in old(free))
      ensures live == old(live) - {b}
      ensures free == if old(Keeps(b)) then old(free) + [b] else old(free)
    {
      live := live - {b};
      if b.Length > BUFFER_POOL_MAX || b.Length == 0 {
        return;
      }
      if |free| < POOL_SLOTS {
        free := free + [b];
        assert b in old(free) ==> !Distinct(free) by {
          if b in old(free) {
            var i :| 0 <= i < |old(free)| && old(free)[i] == b;
            assert free[i] == free[|old(free)|];
          }
        }
      }
    }
  }
}
