/**
  The two atomic primitives of Go's `sync/atomic` package that the chunk guard uses,
  over a 32-bit two's-complement word. Dafny integers are unbounded, so the
  wrap-around of Go's `int32` arithmetic is written out in `Wrap`.
 */
module Atomic {

  newtype int32 = x: int | -0x8000_0000 <= x <= 0x7fff_ffff

  const MinInt32: int32 := -0x8000_0000
  const MaxInt32: int32 := 0x7fff_ffff

  /** Truncation of an unbounded integer to 32 bits, as Go's `int32` addition does on overflow. */
  function Wrap(x: int): (r: int32)
    ensures MinInt32 as int <= x <= MaxInt32 as int ==> r as int == x
    ensures (x - r as int) % 0x1_0000_0000 == 0
  {
    ((x - MinInt32 as int) % 0x1_0000_0000 + MinInt32 as int) as int32
  }

  /** The outcome of one compare-and-swap: whether it swapped, and the word afterwards. */
  datatype Cas = Cas(swapped: bool, value: int32)

  /** `atomic.CompareAndSwapInt32`: replaces the word by `desired` exactly when it equals `expected`. */
  function CompareAndSwapInt32(current: int32, expected: int32, desired: int32): (r: Cas)
    ensures r.swapped <==> current == expected
    ensures r.swapped ==> r.value == desired
    ensures !r.swapped ==> r.value == current
  {
    if current == expected then Cas(true, desired) else Cas(false, current)
  }

  /** `atomic.AddInt32`: adds `delta` to the word, wrapping around on overflow. */
  function AddInt32(current: int32, delta: int32): (r: int32)
    ensures MinInt32 as int <= current as int + delta as int <= MaxInt32 as int ==>
              r as int == current as int + delta as int
    ensures (current as int + delta as int - r as int) % 0x1_0000_0000 == 0
  {
    Wrap(current as int + delta as int)
  }
}
