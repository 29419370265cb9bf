/**
  Chunk wrappers as objects with identity. A reference is an address into an
  explicit heap; the heap hands out addresses in increasing order, so an
  address not yet in the heap denotes a freshly allocated object. A wrapper's
  contents are abstract (`T`): only their equality matters here.
 */
module WrapperHeap {

  type Ref = nat

  datatype Heap<T> = Heap(objects: map<Ref, T>, next: Ref) {

    /** Every allocated address lies below the allocation pointer. */
    predicate Valid() {
      forall p :: p in objects ==> p < next
    }

    /**
      The wrapper's `copy()`: a new object, distinct from every existing one,
      whose contents equal those of `p`. Existing objects are left as they were.
     */
    function Copy(p: Ref): (r: (Ref, Heap<T>))
      requires Valid() && p in objects
      ensures r.0 !in objects && r.0 != p
      ensures r.1.Valid()
      ensures r.1.objects.Keys == objects.Keys + {r.0}
      ensures r.1.objects[r.0] == objects[p]
      ensures forall q :: q in objects ==> r.1.objects[q] == objects[q]
    {
      (next, Heap(objects[next := objects[p]], next + 1))
    }

    /** A writer mutating the object at `p` in place. */
    function Store(p: Ref, contents: T): (r: Heap<T>)
      requires p in objects
      ensures Valid() ==> r.Valid()
      ensures r.objects.Keys == objects.Keys
      ensures r.objects[p] == contents
      ensures forall q :: q in objects && q != p ==> r.objects[q] == objects[q]
    {
      Heap(objects[p := contents], next)
    }
  }
}
