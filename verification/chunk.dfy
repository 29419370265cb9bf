/**
  The guarded chunk: the `readSem` counter together with the slot `w` that
  holds the chunk's current wrapper. The four operations of the on-demand
  copy-on-write guard act on the counter through `ReadSem`; `lock` also loads
  the slot and, when it cannot take the chunk exclusively, hands the writer a
  private copy of the wrapper instead.
 */
module OnDemandCow {
  import opened Atomic
  import ReadSem
  import opened WrapperHeap

  datatype Chunk = Chunk(readSem: int32, w: Ref)

  /** The slot refers to an allocated wrapper, so loading it always yields one. */
  predicate Valid<T>(c: Chunk, h: Heap<T>) {
    h.Valid() && c.w in h.objects
  }

  /** One attempt of rLock: the counter moves as `ReadSem.TryRLock` says; the slot is untouched. */
  function RLockAttempt(c: Chunk, loaded: int32): (r: (bool, Chunk))
    ensures r.0 <==> loaded >= 0 && c.readSem == loaded
    ensures r.1.readSem == ReadSem.TryRLock(c.readSem, loaded).sem
    ensures !r.0 ==> r.1 == c
    ensures r.1.w == c.w
  {
    var step := ReadSem.TryRLock(c.readSem, loaded);
    (step.ok, c.(readSem := step.sem))
  }

  /** rUnlock: decrements the counter and touches nothing else. */
  function RUnlock(c: Chunk): (r: Chunk)
    ensures c.readSem > MinInt32 ==> r.readSem as int == c.readSem as int - 1
    ensures c.readSem == MinInt32 ==> r.readSem == MaxInt32
    ensures r.w == c.w
  {
    c.(readSem := ReadSem.RUnlock(c.readSem))
  }

  /** What lock hands back: the `locked` flag, the wrapper to mutate, and the new state. */
  datatype LockResult<T> = LockResult(locked: bool, target: Ref, chunk: Chunk, heap: Heap<T>)

  /**
    lock: one compare-and-swap from free to exclusive. On success the writer
    gets the live wrapper from the slot; on failure it gets a fresh copy with
    equal contents. Either way the slot keeps the wrapper it had.
   */
  function Lock<T>(c: Chunk, h: Heap<T>): (r: LockResult<T>)
    requires Valid(c, h)
    ensures r.locked <==> c.readSem == ReadSem.Free
    ensures r.locked ==> r.chunk.readSem == ReadSem.Exclusive
    ensures !r.locked ==> r.chunk.readSem == c.readSem
    ensures r.chunk.w == c.w
    ensures Valid(r.chunk, r.heap)
    ensures r.locked ==> r.target == c.w && r.heap == h
    ensures !r.locked ==> r.target != c.w && r.target !in h.objects
    ensures !r.locked ==> r.target in r.heap.objects && r.heap.objects[r.target] == h.objects[c.w]
    ensures forall p :: p in h.objects ==> p in r.heap.objects && r.heap.objects[p] == h.objects[p]
  {
    var step := ReadSem.TryLock(c.readSem);
    if step.ok then
      LockResult(true, c.w, c.(readSem := step.sem), h)
    else
      var (copy, h') := h.Copy(c.w);
      LockResult(false, copy, c.(readSem := step.sem), h')
  }

  /** unlock: releases an exclusive hold; a no-op on any other counter value. */
  function Unlock(c: Chunk): (r: Chunk)
    ensures c.readSem == ReadSem.Exclusive ==> r.readSem == ReadSem.Free
    ensures c.readSem != ReadSem.Exclusive ==> r == c
    ensures r.w == c.w
  {
    c.(readSem := ReadSem.Unlock(c.readSem))
  }

  /**
    Copy-on-write isolation: after a failed lock, whatever the writer stores
    into its private copy, the wrapper in the slot that readers load keeps the
    contents it had before lock.
   */
  lemma PrivateCopyIsolated<T>(c: Chunk, h: Heap<T>, contents: T)
    requires Valid(c, h)
    requires !Lock(c, h).locked
    ensures var r := Lock(c, h);
            r.heap.Store(r.target, contents).objects[c.w] == h.objects[c.w]
  {
  }

  /**
    In-place writing: after a successful lock the writer's target is the very
    wrapper readers load, so a store through it is visible in the slot.
   */
  lemma InPlaceWriteVisible<T>(c: Chunk, h: Heap<T>, contents: T)
    requires Valid(c, h)
    requires Lock(c, h).locked
    ensures var r := Lock(c, h);
            r.heap.Store(r.target, contents).objects[r.chunk.w] == contents
  {
  }

  /** Two failed locks in a row hand out two distinct private copies. */
  lemma FailedLocksGiveDistinctCopies<T>(c: Chunk, h: Heap<T>)
    requires Valid(c, h)
    requires !Lock(c, h).locked
    ensures var r1 := Lock(c, h);
            var r2 := Lock(r1.chunk, r1.heap);
            !r2.locked && r2.target != r1.target && r2.target != c.w
  {
  }
}
