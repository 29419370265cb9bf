/**
  The `readSem` counter of a chunk and its four atomic transitions.
  The counter is `Free` (0) when nobody holds the chunk, `n > 0` while `n`
  readers hold it, and `Exclusive` (-1) while one writer holds it.
  Every transition is one indivisible step on the counter.
 */
module ReadSem {
  import opened Atomic

  const Free: int32 := 0
  const Exclusive: int32 := -1

  /** The outcome of one step: whether it acquired (or released) and the counter afterwards. */
  datatype Step = Step(ok: bool, sem: int32)

  /**
    One iteration of rLock's loop. `loaded` is the value the iteration's load
    returned; `sem` is the counter when its compare-and-swap runs (another
    goroutine may have moved it in between). The swap is only attempted for a
    non-negative `loaded`, from `loaded` to `loaded + 1` in 32-bit arithmetic.
   */
  function TryRLock(sem: int32, loaded: int32): (r: Step)
    ensures r.ok <==> loaded >= 0 && sem == loaded
    ensures r.ok && sem < MaxInt32 ==> r.sem as int == sem as int + 1
    ensures r.ok && sem == MaxInt32 ==> r.sem == MinInt32
    ensures !r.ok ==> r.sem == sem
  {
    if loaded >= 0 then
      var cas := CompareAndSwapInt32(sem, loaded, Wrap(loaded as int + 1));
      Step(cas.swapped, cas.value)
    else
      Step(false, sem)
  }

  /** rUnlock: one atomic decrement, wrapping around below `MinInt32`. */
  function RUnlock(sem: int32): (r: int32)
    ensures sem > MinInt32 ==> r as int == sem as int - 1
    ensures sem == MinInt32 ==> r == MaxInt32
  {
    AddInt32(sem, -1)
  }

  /** lock's single compare-and-swap from `Free` to `Exclusive`; `ok` is the `locked` flag. */
  function TryLock(sem: int32): (r: Step)
    ensures r.ok <==> sem == Free
    ensures r.ok ==> r.sem == Exclusive
    ensures !r.ok ==> r.sem == sem
  {
    var cas := CompareAndSwapInt32(sem, Free, Exclusive);
    Step(cas.swapped, cas.value)
  }

  /** unlock: compare-and-swap from `Exclusive` back to `Free`; a no-op on any other value. */
  function Unlock(sem: int32): (r: int32)
    ensures sem == Exclusive ==> r == Free
    ensures sem != Exclusive ==> r == sem
  {
    CompareAndSwapInt32(sem, Exclusive, Free).value
  }

  /** A writer holding the counter keeps every reader out, whatever its load returned. */
  lemma ExclusiveBlocksReaders(loaded: int32)
    ensures !TryRLock(Exclusive, loaded).ok
    ensures TryRLock(Exclusive, loaded).sem == Exclusive
  {
  }

  /**
    A successful read acquisition followed by its release restores the counter,
    even at the largest `int32`, where both steps wrap.
   */
  lemma RUnlockUndoesRLock(sem: int32, loaded: int32)
    requires TryRLock(sem, loaded).ok
    ensures RUnlock(TryRLock(sem, loaded).sem) == sem
  {
  }

  /** A successful lock followed by unlock restores the free counter. */
  lemma UnlockUndoesLock(sem: int32)
    requires TryLock(sem).ok
    ensures Unlock(TryLock(sem).sem) == sem
  {
  }

  /**
    Calling unlock after a failed lock is a no-op exactly when no writer held
    the counter; when another writer held it, the stray unlock releases that
    writer's lock.
   */
  lemma UnlockAfterFailedLock(sem: int32)
    requires !TryLock(sem).ok
    ensures Unlock(TryLock(sem).sem) == sem <==> sem != Exclusive
    ensures sem == Exclusive ==> Unlock(TryLock(sem).sem) == Free
  {
  }

  /**
    What one iteration of the spin sees: the value its load returned and the
    value of the counter when its compare-and-swap runs.
   */
  datatype Observation = Observation(loaded: int32, atCas: int32)

  predicate Acquires(o: Observation) {
    TryRLock(o.atCas, o.loaded).ok
  }

  /**
    rLock's retry loop, run over a finite prefix `schedule` of its iterations.
    The loop never gives up: if no iteration in the prefix succeeds the reader
    is still spinning (`acquired` is false). Otherwise iteration `k` is the first
    whose load saw a non-negative value that was still current at its swap,
    and `sem` is that value plus one in 32-bit arithmetic.
   */
  method RLockSpin(schedule: seq<Observation>) returns (acquired: bool, k: nat, sem: int32)
    ensures acquired ==> k < |schedule|
    ensures acquired ==> schedule[k].loaded >= 0 && schedule[k].atCas == schedule[k].loaded
    ensures acquired && schedule[k].loaded < MaxInt32 ==> sem as int == schedule[k].loaded as int + 1
    ensures acquired && schedule[k].loaded == MaxInt32 ==> sem == MinInt32
    ensures acquired ==> forall j :: 0 <= j < k ==> schedule[j].loaded < 0 || schedule[j].atCas != schedule[j].loaded
    ensures !acquired ==> forall j :: 0 <= j < |schedule| ==> schedule[j].loaded < 0 || schedule[j].atCas != schedule[j].loaded
  {
    k := 0;
    while k < |schedule|
      invariant k <= |schedule|
      invariant forall j :: 0 <= j < k ==> !Acquires(schedule[j])
    {
      var step := TryRLock(schedule[k].atCas, schedule[k].loaded);
      if step.ok {
        return true, k, step.sem;
      }
      k := k + 1;
    }
    return false, k, 0;
  }
}
