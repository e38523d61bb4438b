/**
 What the pager keeps about a registered object (class DSwap::ObjRef in inc/dswap.hpp), and the
 width of its counters.
 */
module ObjRefs {
  import opened FarMemory

  const WORD: nat := 0x1_0000_0000_0000_0000  // 2^64

  datatype ObjRef = ObjRef(ptr: Ptr, size: nat)

  // Whole multiples of 2^64 make no difference.
  lemma Shift(x: int, q: int)
    ensures (x + q * WORD) % WORD == x % WORD
  {
  }
}
