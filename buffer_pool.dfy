/**
 * The Go `BufferPool` as a class. A buffer is an `array<bv8>` of
 * `BufferSize` bytes (the Go `*[BufferSize]byte`), nil is `null`, and a fresh
 * allocation is `new`. The channel's buffered elements are the field `free`,
 * oldest first; the non-blocking receive and send become a length test.
 *
 * The instrumentation port is not called: each poison or unpoison request is
 * appended to the ghost `log`, from which `PoolSpec.Poisoned` tells what the
 * sanitizer sees. The ghost sets `issued` and `held` record what the callers
 * were given and still hold; the Go pool keeps neither.
 */
module BufferPools {
  import opened PoolSpec

  type Buffer = array<bv8>

  class BufferPool {
    const capacity: nat
    var free: seq<Buffer>
    ghost var log: seq<PortCall<Buffer>>
    ghost var issued: set<Buffer>
    ghost var held: set<Buffer>

    /** The queue is within capacity and holds only whole buffers. */
    ghost predicate Valid()
      reads this
    {
      |free| <= capacity && forall i :: 0 <= i < |free| ==> free[i].Length == BufferSize
    }

    /** The pool and its callers, as the state machine of `PoolSpec`. */
    ghost function State(): Sys<Buffer>
      reads this
    {
      Sys(Pool(capacity, free, log), issued, held)
    }

    /** NewBufferPool: an empty queue bounded by `capacity`. */
    constructor (capacity: nat)
      ensures Valid()
      ensures this.capacity == capacity && free == [] && log == []
      ensures State() == Init(capacity) && Inv(State())
    {
      this.capacity := capacity;
      free := [];
      log := [];
      issued := {};
      held := {};
      InitInv<Buffer>(capacity);
    }

    /**
     * Rent: the oldest queued buffer, unpoisoned over `BufferSize` bytes with
     * its contents untouched, or else a new zeroed buffer with no port call.
     */
    method Rent() returns (buf: Buffer)
      requires Valid()
      modifies this
      ensures Valid()
      ensures buf.Length == BufferSize
      ensures old(free) != [] ==>
        && buf == old(free[0])
        && free == old(free[1..])
        && log == old(log) + [Unpoison(buf, BufferSize)]
        && buf[..] == old(buf[..])
      ensures old(free) == [] ==>
        && fresh(buf)
        && (forall i :: 0 <= i < buf.Length ==> buf[i] == 0)
        && free == old(free)
        && log == old(log)
      ensures Legal(old(State()), RentOp(buf)) && State() == Step(old(State()), RentOp(buf))
      ensures old(NoDuplicates(free)) ==> NoDuplicates(free)
      ensures old(Inv(State())) ==> Inv(State()) && buf !in old(held) && !Poisoned(log, buf)
    {
      ghost var before := State();
      if |free| > 0 {
        buf := free[0];
        free := free[1..];
        log := log + [Unpoison(buf, BufferSize)];
      } else {
        buf := new bv8[BufferSize](_ => 0);
      }
      issued := issued + {buf};
      held := held + {buf};
      assert State() == Step(before, RentOp(buf));
      if NoDuplicates(before.pool.free) {
        RentKeepsQueueSound(before.pool, buf);
      }
      if Inv(before) {
        StepPreservesInv(before, RentOp(buf));
        RentNeverDoubleIssues(before, buf);
      }
    }

    /**
     * Return: nil changes nothing; any other buffer is poisoned over
     * `BufferSize` bytes and then queued at the tail if there is room, or
     * dropped if the queue is full.
     */
    method Return(buf: array?<bv8>)
      requires Valid()
      requires buf != null ==> buf.Length == BufferSize
      modifies this
      ensures Valid()
      ensures buf == null ==> free == old(free) && log == old(log) && State() == old(State())
      ensures buf != null ==>
        && log == old(log) + [Poison(buf, BufferSize)]
        && free == (if |old(free)| < capacity then old(free) + [buf] else old(free))
      ensures State() == Step(old(State()), ReturnOp(if buf == null then None else Some(buf as Buffer)))
      ensures old(NoDuplicates(free)) && (buf == null || buf !in old(free)) ==> NoDuplicates(free)
      ensures old(Inv(State())) && (buf == null || buf in old(held)) ==> Inv(State())
    {
      if buf == null {
        return;
      }
      ghost var before := State();
      log := log + [Poison(buf, BufferSize)];
      if |free| < capacity {
        free := free + [buf];
      }
      held := held - {buf};
      assert State() == Step(before, ReturnOp(Some(buf)));
      if NoDuplicates(before.pool.free) && buf !in before.pool.free {
        ReturnUnqueuedKeepsQueueSound(before.pool, Some(buf));
      }
      if Inv(before) && buf in before.held {
        ReturnPreservesInv(before, buf);
      }
    }
  }
}
