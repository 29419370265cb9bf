/**
  The guard as a closed state machine. Every atomic operation of the chunk is
  one step; ghost bookkeeping (`Holders`) records how many read holds are
  outstanding and whether the writer holds the chunk exclusively. Under the
  pairing discipline callers keep (rUnlock only while holding a read; a read
  attempted only while fewer than the largest `int32` are held; a single
  writer, whose lock and unlock steps may come in any order) the counter
  always tells the truth about the holders.
 */
module Pairing {
  import opened Atomic
  import ReadSem
  import opened WrapperHeap
  import opened OnDemandCow

  /** Ghost record of who holds the chunk. */
  datatype Holders = Holders(readers: nat, writer: bool)

  datatype System<T> = System(chunk: Chunk, heap: Heap<T>, holders: Holders)

  /** One atomic step by some goroutine. `loaded` is what a reader's load returned. */
  datatype Action = ReadAttempt(loaded: int32) | ReadRelease | WriteLock | WriteUnlock

  /** The counter is exclusive exactly while the writer holds the chunk, and otherwise counts the reads. */
  predicate Inv<T>(s: System<T>) {
    && Valid(s.chunk, s.heap)
    && (if s.holders.writer then s.holders.readers == 0 && s.chunk.readSem == ReadSem.Exclusive
        else s.chunk.readSem as int == s.holders.readers)
  }

  /** A new chunk: free, with its slot holding the initial wrapper. */
  function Init<T>(initial: T): (s: System<T>)
    ensures Inv(s)
    ensures s.chunk.readSem == ReadSem.Free && s.heap.objects[s.chunk.w] == initial
  {
    System(Chunk(ReadSem.Free, 0), Heap(map[0 := initial], 1), Holders(0, false))
  }

  /**
    The pairing discipline: a read is released only while one is held, and a
    read is attempted only while fewer than the largest `int32` are held, so at
    most that many are ever held and the increment cannot wrap. The single
    writer's lock and unlock steps are unrestricted.
   */
  predicate Allowed<T>(s: System<T>, a: Action) {
    match a
    case ReadAttempt(_) => s.holders.readers < MaxInt32 as int
    case ReadRelease => s.holders.readers > 0
    case WriteLock => true
    case WriteUnlock => true
  }

  /** Performs one action: the chunk moves by its operation, the bookkeeping by its outcome. */
  function Next<T>(s: System<T>, a: Action): (r: System<T>)
    requires Valid(s.chunk, s.heap) && Allowed(s, a)
    ensures Valid(r.chunk, r.heap)
    ensures r.chunk.w == s.chunk.w
    ensures forall p :: p in s.heap.objects ==> p in r.heap.objects && r.heap.objects[p] == s.heap.objects[p]
  {
    match a
    case ReadAttempt(loaded) =>
      var (ok, c) := RLockAttempt(s.chunk, loaded);
      s.(chunk := c, holders := s.holders.(readers := if ok then s.holders.readers + 1 else s.holders.readers))
    case ReadRelease =>
      s.(chunk := RUnlock(s.chunk), holders := s.holders.(readers := s.holders.readers - 1))
    case WriteLock =>
      var r := Lock(s.chunk, s.heap);
      System(r.chunk, r.heap, s.holders.(writer := s.holders.writer || r.locked))
    case WriteUnlock =>
      s.(chunk := Unlock(s.chunk), holders := s.holders.(writer := false))
  }

  /** Every action of `acts` is allowed in the state it is performed in. */
  predicate WellPaired<T>(s: System<T>, acts: seq<Action>)
    requires Valid(s.chunk, s.heap)
    decreases |acts|
  {
    |acts| == 0 || (Allowed(s, acts[0]) && WellPaired(Next(s, acts[0]), acts[1..]))
  }

  /**
    Performs `acts` in order. No run ever replaces the wrapper in the slot or
    alters an existing wrapper: lock only loads the slot and allocates copies.
   */
  function Run<T>(s: System<T>, acts: seq<Action>): (r: System<T>)
    requires Valid(s.chunk, s.heap) && WellPaired(s, acts)
    ensures Valid(r.chunk, r.heap)
    ensures r.chunk.w == s.chunk.w
    ensures forall p :: p in s.heap.objects ==> p in r.heap.objects && r.heap.objects[p] == s.heap.objects[p]
    decreases |acts|
  {
    if |acts| == 0 then s else Run(Next(s, acts[0]), acts[1..])
  }

  /** What the invariant says about the counter alone. */
  lemma InvMeaning<T>(s: System<T>)
    requires Inv(s)
    ensures s.chunk.readSem >= ReadSem.Exclusive
    ensures s.chunk.readSem == ReadSem.Exclusive <==> s.holders.writer && s.holders.readers == 0
    ensures s.chunk.readSem != ReadSem.Exclusive ==> s.chunk.readSem as int == s.holders.readers
  {
  }

  lemma NextPreservesInv<T>(s: System<T>, a: Action)
    requires Inv(s) && Allowed(s, a)
    ensures Inv(Next(s, a))
  {
  }

  lemma {:induction false} RunPreservesInv<T>(s: System<T>, acts: seq<Action>)
    requires Inv(s) && WellPaired(s, acts)
    ensures Inv(Run(s, acts))
    decreases |acts|
  {
    if |acts| > 0 {
      NextPreservesInv(s, acts[0]);
      RunPreservesInv(Next(s, acts[0]), acts[1..]);
    }
  }

  /** From a new chunk, every well-paired run keeps the counter truthful. */
  lemma FromInitCounterTruthful<T>(initial: T, acts: seq<Action>)
    requires WellPaired(Init(initial), acts)
    ensures var r := Run(Init(initial), acts);
            && r.chunk.readSem >= ReadSem.Exclusive
            && (r.chunk.readSem == ReadSem.Exclusive <==> r.holders.writer && r.holders.readers == 0)
            && (r.chunk.readSem != ReadSem.Exclusive ==> r.chunk.readSem as int == r.holders.readers)
  {
    RunPreservesInv(Init(initial), acts);
    InvMeaning(Run(Init(initial), acts));
  }

  /** lock succeeds only when nobody, reader or writer, holds the chunk. */
  lemma LockOnlyWhenUnheld<T>(s: System<T>)
    requires Inv(s)
    ensures Lock(s.chunk, s.heap).locked <==> s.holders.readers == 0 && !s.holders.writer
  {
  }

  /** While the writer holds the chunk, every read attempt and every second lock fails. */
  lemma WriterExcludesOthers<T>(s: System<T>, loaded: int32)
    requires Inv(s) && s.holders.writer
    ensures !RLockAttempt(s.chunk, loaded).0
    ensures !Lock(s.chunk, s.heap).locked
  {
  }

  /** With no writer holding, unlock after a failed lock leaves the chunk as lock found it. */
  lemma UnlockAfterFailedLockIsNoop<T>(s: System<T>)
    requires Inv(s) && !s.holders.writer
    requires !Lock(s.chunk, s.heap).locked
    ensures Unlock(Lock(s.chunk, s.heap).chunk) == s.chunk
  {
  }

  predicate ReadOnly(acts: seq<Action>) {
    forall i :: 0 <= i < |acts| ==> acts[i].ReadAttempt? || acts[i].ReadRelease?
  }

  /**
    Readers alone never drive the counter negative, and it is back to free
    once every read has been released.
   */
  lemma {:induction false} ReadersAloneReturnToFree<T>(s: System<T>, acts: seq<Action>)
    requires Inv(s) && !s.holders.writer
    requires ReadOnly(acts) && WellPaired(s, acts)
    ensures var r := Run(s, acts);
            && !r.holders.writer
            && r.chunk.readSem >= 0
            && (r.holders.readers == 0 ==> r.chunk.readSem == ReadSem.Free)
    decreases |acts|
  {
    if |acts| > 0 {
      NextPreservesInv(s, acts[0]);
      assert ReadOnly(acts[1..]) by {
        forall i | 0 <= i < |acts[1..]|
          ensures acts[1..][i].ReadAttempt? || acts[1..][i].ReadRelease?
        {
          assert acts[1..][i] == acts[i + 1];
        }
      }
      ReadersAloneReturnToFree(Next(s, acts[0]), acts[1..]);
    }
  }

  /**
    A writer holds the chunk while four readers try to enter: each attempt
    fails whatever its load returned. After unlock the four readers get in one
    after another, the counter reads 4, and after four releases it is free again.
   */
  lemma FourReadersWaitForWriter<T>(initial: T, l1: int32, l2: int32, l3: int32, l4: int32)
    ensures var s1 := Next(Init(initial), WriteLock);
            var s2 := Next(Next(Next(Next(s1, ReadAttempt(l1)), ReadAttempt(l2)), ReadAttempt(l3)), ReadAttempt(l4));
            var s3 := Next(s2, WriteUnlock);
            var s4 := Next(Next(Next(Next(s3, ReadAttempt(0)), ReadAttempt(1)), ReadAttempt(2)), ReadAttempt(3));
            var s5 := Next(Next(Next(Next(s4, ReadRelease), ReadRelease), ReadRelease), ReadRelease);
            && s1.holders.writer && s1.chunk.readSem == ReadSem.Exclusive
            && s2.chunk == s1.chunk && s2.holders.readers == 0
            && s3.chunk.readSem == ReadSem.Free
            && s4.chunk.readSem == 4 && s4.holders.readers == 4
            && s5.chunk.readSem == ReadSem.Free && s5.holders == Holders(0, false)
  {
  }
}
