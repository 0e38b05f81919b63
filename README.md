# Poisoning-aware buffer pool

This project models `BufferPool` from asan-go-poc. The pool hands out 1024-byte buffers (`BufferSize`) and recycles them. It poisons a buffer when the buffer is returned, so that the address sanitizer flags any later access through a stale pointer. It unpoisons the buffer when it is handed out again. The free buffers sit in a bounded FIFO, which is a Go channel of size `capacity` used only with non-blocking `select`.

The pool appears twice with the same logic. `main.go` calls the C helpers directly. `bufferpool.go` goes through the build-tag helpers `poisonMemory` and `unpoisonMemory`. It is modelled once.

- `pool_spec.dfy`, module `PoolSpec`: the pool as a state machine over values.
  - A buffer is an opaque identity `T`.
  - `Pool` holds the capacity, the free queue (oldest first) and the log of calls made to the instrumentation port. Each call is `Poison` or `Unpoison`, with the buffer and the byte count.
  - `Rent` and `Return` are the two operations. `Poisoned` reads off the log whether the sanitizer would see a buffer as poisoned.
  - `Sys` adds the callers' side, which the Go pool does not track: every buffer issued so far and the buffers currently held.
  - `Legal` is the callers' discipline: the allocator never produces a buffer already issued, and a buffer is returned only while it is held.
  - `Inv` is the lifecycle invariant. The queue is within capacity and has no duplicates. No queued buffer is held. An issued buffer is poisoned exactly when no caller holds it. Its port calls alternate poison/unpoison, starting with a poison of all `BufferSize` bytes.
- `buffer_pool.dfy`, module `BufferPools`: the Go type as a class `BufferPool`.
  - A buffer is an `array<bv8>` of `BufferSize` bytes (the `*[BufferSize]byte`). `nil` is `null`, and `&[BufferSize]byte{}` is `new bv8[BufferSize](_ => 0)`.
  - The channel's contents are the field `free`. A receive takes `free[0]`. A send appends when `|free| < capacity`.
  - The port calls go into the ghost field `log`. Ghost fields `issued` and `held` do the callers' bookkeeping.
  - Each method states its new state directly. It also states that `State()` moves by `PoolSpec.Step`, so every lemma of `PoolSpec` applies to the class.

The log stands in for both instrumentation backends. The sanitizer backend (`asan_helpers.go`) makes `Poisoned` observable as faults. The no-op backend (`noasan_helpers.go`) only prints. The pool behaves the same under both because nothing it does depends on the log.

Three facts about the code shape what is proved:

- `Return` has no guard against a buffer that is already queued (bufferpool.go:41-56). Returning a held buffer twice poisons it twice. When the queue has two free slots, both copies are queued, and two later rents hand the same buffer to two callers (`PoolSpec.DoubleReturnScenario`). When the queue is full, the second copy is dropped like any other. So the no-duplicate property is proved for every run in which no returned buffer is already queued (`PoolSpec.NeverRequeuedKeepsQueueSound`), and the no-double-issue property for disciplined callers (`Legal`).
- A freshly allocated buffer is handed out without an unpoison call (bufferpool.go:32-36), although the comment at bufferpool.go:24 speaks of unpoisoning the buffer for use. A new buffer was never poisoned, so it is usable. Each buffer's port history therefore starts with a poison, at its first return.
- A rent from a non-empty queue takes the oldest queued buffer (bufferpool.go:27-31). In the capacity-two scenario, after three fresh rents and three returns, the next rent yields exactly the first buffer returned, B1 (`PoolSpec.CapacityTwoScenario`).

## Model

| member | source | states |
|---|---|---|
| `BufferPools.BufferPool.constructor` | main.go:40-44 | The new pool has an empty queue bounded by `capacity` and has made no port call. Its state is `PoolSpec.Init(capacity)`, which satisfies the lifecycle invariant. |
| `BufferPools.BufferPool.Rent` | main.go:46-60 | On a non-empty queue it returns the head and leaves the rest of the queue in order. It adds exactly one `Unpoison(buf, 1024)` call and leaves the buffer's bytes unchanged. On an empty queue it returns a fresh all-zero 1024-byte buffer and makes no port call; the queue stays empty. The step is legal and equals `PoolSpec.Step`. A queue without duplicates keeps none. It keeps the invariant, and the buffer is one no caller held and is not poisoned. |
| `BufferPools.BufferPool.Return` | main.go:62-79 | `nil` changes nothing. Any other buffer gets exactly one `Poison(buf, 1024)` call and is then appended if the queue is shorter than `capacity`; otherwise the queue is unchanged. The step equals `PoolSpec.Step`. A queue without duplicates keeps none when the buffer was not already queued. The invariant is kept when the buffer was held. |
| `PoolSpec.NewPool` | bufferpool.go:18-22 | Has no contract of its own. It is the empty queue bounded by `capacity` with an empty port log; `PoolSpec.InitInv` states its properties. |
| `PoolSpec.Rent` | bufferpool.go:25-37 | Has no contract of its own. It takes the head of the queue and logs an unpoison, or yields the allocated buffer; `PoolSpec.RentFromQueue`, `PoolSpec.RentWhenEmpty` and `PoolSpec.RentKeepsQueueSound` state its properties. |
| `PoolSpec.Return` | bufferpool.go:41-56 | Has no contract of its own. It ignores nil, and otherwise logs a poison and enqueues the buffer when there is room; `PoolSpec.ReturnNil`, `PoolSpec.ReturnPoisons`, `PoolSpec.ReturnEnqueuesOrDrops` and `PoolSpec.ReturnUnqueuedKeepsQueueSound` state its properties. |
| `PoolSpec.Step` | bufferpool.go:25-56 | Has no contract of its own. It applies one rent or return to the pool and records the callers' side; `PoolSpec.StepIsPoolStep` and `PoolSpec.StepPreservesInv` state its properties. |
| `PoolSpec.InitInv` | bufferpool.go:18-22 | A new pool has an empty queue with the given capacity and satisfies the lifecycle invariant. |
| `PoolSpec.RentFromQueue` | bufferpool.go:26-31 | Renting from a non-empty queue yields its head, removes exactly that element and keeps the capacity. It appends one `Unpoison` of `BufferSize` bytes to that buffer's port history and no call to any other buffer's. |
| `PoolSpec.RentWhenEmpty` | bufferpool.go:32-36 | Renting from an empty queue yields the freshly allocated buffer and leaves the pool, queue and port log unchanged. |
| `PoolSpec.ReturnNil` | bufferpool.go:42-44 | Returning nil leaves the pool unchanged. |
| `PoolSpec.ReturnPoisons` | bufferpool.go:46-48 | Returning a buffer poisons it whether or not it is then queued. Its history gains exactly one `Poison` of `BufferSize` bytes, and no other buffer's history changes. |
| `PoolSpec.ReturnEnqueuesOrDrops` | bufferpool.go:50-56 | Below capacity the buffer joins the tail. At capacity the queue is unchanged and the buffer is dropped. A queue within its bound stays within it. |
| `PoolSpec.ReturnThenRent` | bufferpool.go:25-56 | On an empty queue with room, renting after a return gives the same buffer back. The queue is empty again, and the log gains exactly a poison then an unpoison of it. |
| `PoolSpec.FirstInFirstOut` | bufferpool.go:25-56 | A buffer returned behind queued ones waits its turn. The next rent yields the oldest buffer, and the returned one stays last. |
| `PoolSpec.RentKeepsQueueSound` | bufferpool.go:25-37 | A rent keeps a queue that is within capacity and free of duplicates so, whatever the caller holds. |
| `PoolSpec.ReturnUnqueuedKeepsQueueSound` | bufferpool.go:41-56 | Returning nil, or a buffer that is not already queued, keeps a queue within capacity and free of duplicates. |
| `PoolSpec.NeverRequeuedKeepsQueueSound` | bufferpool.go:25-56 | Along any sequence of rents and returns in which no returned buffer is already queued at the time of its return, the queue stays within capacity and free of duplicates. |
| `PoolSpec.NewPoolQueueStaysSound` | bufferpool.go:18-56 | From a new pool, along any such sequence, the queue holds at most `capacity` buffers and no buffer twice. |
| `PoolSpec.PoolRunKeepsCapacity` | bufferpool.go:18-22 | No sequence of rents and returns changes the pool's capacity. |
| `PoolSpec.StepIsPoolStep` | bufferpool.go:25-56 | The pool part of a system step is the pool-only step, so the callers' bookkeeping never influences the pool. |
| `PoolSpec.PoisonedIffNotHeld` | bufferpool.go:25-48 | Under the invariant, an issued buffer is poisoned exactly when no caller holds it. |
| `PoolSpec.RentNeverDoubleIssues` | bufferpool.go:25-37 | Under the invariant, a rent never yields a buffer a caller still holds. A reused buffer was poisoned before and is unpoisoned after. |
| `PoolSpec.RentFromQueuePreservesInv` | bufferpool.go:26-31 | Dequeuing and unpoisoning the head keeps the lifecycle invariant. |
| `PoolSpec.RentFreshPreservesInv` | bufferpool.go:32-36 | Handing out a never-issued buffer keeps the lifecycle invariant. |
| `PoolSpec.ReturnKeepsQueue` | bufferpool.go:50-56 | Returning a held buffer keeps the queue within capacity, free of duplicates and free of held buffers. |
| `PoolSpec.ReturnPreservesInv` | bufferpool.go:41-56 | Returning a held buffer keeps the lifecycle invariant. |
| `PoolSpec.StepPreservesInv` | bufferpool.go:25-56 | Every legal rent or return keeps the lifecycle invariant. |
| `PoolSpec.RunPreservesInv` | bufferpool.go:25-56 | Every legal sequence of rents and returns keeps the lifecycle invariant. |
| `PoolSpec.PoolLifecycle` | bufferpool.go:18-56 | From a new pool, after any legal sequence of calls, the queue holds at most `capacity` buffers with no duplicates. Every queued buffer is poisoned and every held buffer is not. |
| `PoolSpec.DiscardedIsTerminal` | bufferpool.go:50-56 | A dropped buffer (issued, neither held nor queued) stays dropped and poisoned under every legal call. |
| `PoolSpec.CapacityTwoScenario` | bufferpool.go:18-56 | Capacity 2, three rents and three returns: the queue is [B1, B2] and B3 is dropped but poisoned. The next rent yields B1 unpoisoned and leaves [B2] poisoned. |
| `PoolSpec.DoubleReturnScenario` | bufferpool.go:41-56 | Two returns of one buffer queue it twice. The next two rents both yield it. |

## Left out

- `main` (main.go:81-111) is left out: it is a demonstration that reads through a stale pointer to trigger the sanitizer.
- The `printf` and `fmt.Printf` logging is left out because it is output only.
- The cgo preamble and `asan_helpers.go` call the sanitizer's foreign functions. They are modelled only as entries in the ghost port log. `noasan_helpers.go` only prints, so it needs no model of its own.
- Concurrency is left out: the channel's thread safety and the unused `sync.Mutex`. The model is sequential.
- Garbage collection of dropped buffers is left out, and so is the reuse of their addresses by later allocations. `Legal` assumes the allocator never produces a buffer the pool has already issued.
- `BufferPools.BufferPool.constructor` takes a `nat` capacity. In Go, `make` panics on a negative channel size, and that panic is not modelled.
- Allocation failure on rent is not modelled. The Go code has no failure path; an out-of-memory condition aborts the process.
- The variable-length string pool with first-fit reuse is not part of this model. None of the modelled files contains it.
- A guard against double return is not modelled, because the code has none (bufferpool.go:41-56).
