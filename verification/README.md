# On-demand copy-on-write chunk guard, in Dafny

This project models the optimistic reader/writer guard of a `Chunk` in
`asset/code/on-demand-cow.go`. The guard keeps one `int32` counter, `readSem`:

- `0` means the chunk is free.
- `n > 0` means `n` readers hold it.
- `-1` means one writer holds it exclusively.

It has four operations:

- `rLock` spins until a compare-and-swap moves a non-negative count to count + 1.
- `rUnlock` atomically decrements the count.
- `lock` makes one compare-and-swap from 0 to -1. On success it returns the live wrapper from the chunk's slot `c.w`. On failure it returns a `copy()` of that wrapper, which the writer may mutate privately.
- `unlock` makes one compare-and-swap from -1 back to 0. It does nothing on any other value.

Each atomic operation is one indivisible step, written as a pure function on
immutable values:

- `atomic.dfy` (`Atomic`): the `int32` word and Go's `CompareAndSwapInt32` and `AddInt32`. The two's-complement wrap-around of Go's `int32` arithmetic is written out.
- `readsem.dfy` (`ReadSem`): the four transitions of the counter, and rLock's retry loop run over a finite prefix of its iterations.
- `heap.dfy` (`WrapperHeap`): wrappers as objects with identity. A reference is an address into an explicit heap. `copy()` allocates an address not yet in the heap, so "fresh", "distinct" and "equal contents" are all stated about values.
- `chunk.dfy` (`OnDemandCow`): the chunk as counter plus wrapper slot, and the copy-on-write behaviour of `lock`.
- `pairing.dfy` (`Pairing`): the guard as a closed state machine. Ghost bookkeeping records how many reads are held and whether the writer holds the lock. The main result is the invariant: under correct pairing, the counter is -1 exactly while the writer holds the lock with no readers, and otherwise it equals the number of held reads.

An rLock iteration is modelled with two values:

- `loaded`: what the iteration's `LoadInt32` returned;
- the counter at the moment the compare-and-swap runs.

Another goroutine may move the counter between the load and the swap. Because
`loaded` is arbitrary in every step of the state machine, every interleaving of
the other goroutines between the load and the swap is covered.

The pairing discipline has two parts:

- `rUnlock` is called only while a read is held, and a read is attempted only while fewer than 2^31 - 1 reads are held. So at most 2^31 - 1 reads are ever held, and the increment never wraps.
- There is a single writer. Its lock and unlock steps may come in any order; in particular it may call `unlock` whatever `lock` returned.

Nothing in `on-demand-cow.go` stops a caller from calling `unlock` after a
failed `lock`; the model proves when that call is harmless. When no writer
holds the chunk, `unlock` after a failed `lock` is a no-op
(`Pairing.UnlockAfterFailedLockIsNoop`). When the writer itself already holds
the chunk, a second `lock` fails and the `unlock` that follows frees the
writer's own hold. `ReadSem.UnlockAfterFailedLock` shows why a single writer
matters: if a different writer held the counter, a stray `unlock` would
release that writer's lock.

## Model

| member | source | states |
|---|---|---|
| Atomic.Wrap | asset/code/on-demand-cow.go:18 | the `int32` result of `readSem+1`: equal to the mathematical value when it is in range, and congruent to it modulo 2^32 always |
| Atomic.CompareAndSwapInt32 | asset/code/on-demand-cow.go:18-46 | the compare-and-swap used by rLock, lock and unlock: swaps exactly when the word equals the expected value, then holds the desired value, and otherwise keeps its value |
| Atomic.AddInt32 | asset/code/on-demand-cow.go:30 | the atomic add used by rUnlock: the exact sum when it is in `int32` range, and congruent to it modulo 2^32 always |
| WrapperHeap.Heap.Copy | asset/code/on-demand-cow.go:39 | the wrapper's `copy()`: a new object not previously allocated and distinct from the original, with equal contents; every existing object keeps its contents |
| ReadSem.TryRLock | asset/code/on-demand-cow.go:17-19 | an rLock iteration acquires exactly when its load saw a non-negative value that is still current at the swap; success sets the counter to that value plus one (wrapping to the minimum `int32` only at the maximum); failure, including whenever a writer holds -1, leaves the counter unchanged |
| ReadSem.RLockSpin | asset/code/on-demand-cow.go:14-26 | over any finite prefix of the retry loop: either the reader is still spinning because no iteration could swap, or iteration `k` is the first whose load was non-negative and still current, and the counter became that value plus one (the minimum `int32` when that value was the maximum) |
| ReadSem.RUnlock | asset/code/on-demand-cow.go:29-31 | rUnlock lowers the counter by exactly one (with 32-bit wrap below the minimum) |
| ReadSem.TryLock | asset/code/on-demand-cow.go:35 | `locked` is true exactly when the counter was 0; then the counter is -1; otherwise the counter is unchanged, whether readers or a writer held it |
| ReadSem.Unlock | asset/code/on-demand-cow.go:45-47 | unlock turns -1 into 0 and leaves every other value unchanged |
| ReadSem.ExclusiveBlocksReaders | asset/code/on-demand-cow.go:18 | while the counter is -1 no rLock iteration succeeds and the counter stays -1, so the loop retries |
| ReadSem.RUnlockUndoesRLock | asset/code/on-demand-cow.go:14-31 | a successful read acquisition followed by rUnlock restores the counter, including at the maximum `int32` where both steps wrap |
| ReadSem.UnlockUndoesLock | asset/code/on-demand-cow.go:34-47 | a successful lock followed by unlock restores the free counter |
| ReadSem.UnlockAfterFailedLock | asset/code/on-demand-cow.go:34-47 | after a failed lock, unlock is a no-op exactly when the counter was not -1; if another writer held -1, the stray unlock frees the chunk |
| OnDemandCow.RLockAttempt | asset/code/on-demand-cow.go:17-19 | an rLock iteration on the chunk succeeds under the same condition as on the counter and never touches the wrapper slot |
| OnDemandCow.RUnlock | asset/code/on-demand-cow.go:29-31 | rUnlock decrements the counter (the minimum `int32` wraps to the maximum) and leaves the wrapper slot alone |
| OnDemandCow.Lock | asset/code/on-demand-cow.go:34-42 | `locked` iff the counter was 0, then the counter is -1, else it is unchanged; when locked, the returned wrapper is the one in `c.w` and no object is allocated; when not locked, it is a newly allocated object distinct from `c.w` with equal contents; the slot is never replaced and no existing wrapper changes |
| OnDemandCow.Unlock | asset/code/on-demand-cow.go:45-47 | unlock frees an exclusively held chunk, is a no-op otherwise, and keeps the slot |
| OnDemandCow.PrivateCopyIsolated | asset/code/on-demand-cow.go:38-40 | after a failed lock, whatever the writer stores into its copy, the wrapper readers load from the slot keeps its contents |
| OnDemandCow.InPlaceWriteVisible | asset/code/on-demand-cow.go:36-37 | after a successful lock, a store through the returned wrapper is a store to the slot's wrapper |
| OnDemandCow.FailedLocksGiveDistinctCopies | asset/code/on-demand-cow.go:35-40 | two failed locks in a row hand out two distinct private copies, both distinct from the slot's wrapper |
| Pairing.Next | asset/code/on-demand-cow.go:14-47 | every step keeps the slot's wrapper allocated, never replaces the slot, and never alters an existing wrapper |
| Pairing.Run | asset/code/on-demand-cow.go:36-40 | over any well-paired sequence of steps the slot keeps the same wrapper and existing wrappers keep their contents |
| Pairing.InvMeaning | asset/code/on-demand-cow.go:14-47 | under the invariant the counter is at least -1, is -1 exactly when the writer holds and no reads are held, and otherwise equals the number of held reads |
| Pairing.NextPreservesInv | asset/code/on-demand-cow.go:14-47 | each allowed step (read attempt, read release, lock, unlock) preserves the invariant |
| Pairing.RunPreservesInv | asset/code/on-demand-cow.go:14-47 | every well-paired sequence of steps preserves the invariant |
| Pairing.FromInitCounterTruthful | asset/code/on-demand-cow.go:14-47 | from a new free chunk, after any well-paired sequence of steps the counter is at least -1, is -1 exactly when the writer holds with no readers, and otherwise equals the held-read count |
| Pairing.LockOnlyWhenUnheld | asset/code/on-demand-cow.go:35 | lock succeeds exactly when no reader and no writer holds the chunk |
| Pairing.WriterExcludesOthers | asset/code/on-demand-cow.go:18-35 | while the writer holds the chunk every read attempt fails and a second lock fails |
| Pairing.UnlockAfterFailedLockIsNoop | asset/code/on-demand-cow.go:34-47 | when no writer holds the chunk, unlock after a failed lock leaves the chunk exactly as before |
| Pairing.ReadersAloneReturnToFree | asset/code/on-demand-cow.go:14-31 | with readers only, the counter never goes negative and is back to 0 once every read is released |
| Pairing.FourReadersWaitForWriter | asset/code/on-demand-cow.go:14-47 | with a writer holding, four read attempts fail whatever they loaded; after unlock four readers enter and the counter reads 4; four releases free it again |

## Left out

- Progress, fairness and `runtime.Gosched` in rLock's loop: the loop is modelled as any finite prefix of its iterations (`ReadSem.RLockSpin`), because an unbounded spin cannot be expressed as a terminating member.
- Memory ordering and real parallel interleaving: every atomic operation is one indivisible step of a sequential state machine.
- The `Chunk` struct layout, the `atomic.Value` holding `c.w`, and the internals of `chunkencWrapper` and its `copy()`: these are not part of this model. A wrapper's contents are an abstract type, and `copy()` is abstracted to "a fresh object with equal contents".
- Publishing a new wrapper into `c.w`: no code in `on-demand-cow.go` stores into the slot, so the model has no publish operation.
- The overflow of the read count: rLock's `readSem+1` is modelled with its 32-bit wrap. The pairing invariant assumes a read is attempted only while fewer than 2^31 - 1 reads are held, so at most 2^31 - 1 are ever held; the state machine allows no attempt beyond that.
- `asset/code/batch.go`, `asset/code/chan.go` and `asset/code/race.go`: demonstration programs made of goroutines, channels, timers and an HTTP profiling server, with no sequential behaviour of the guard in them.
