/** Machine-level integers shared by the kernel components. */
module Machine {

  const TWO_64: nat := 0x1_0000_0000_0000_0000

  /** A `uint64_t` (also `size_t` and `uintptr_t` on x86-64). */
  type u64 = x: int | 0 <= x < 0x1_0000_0000_0000_0000

  const PAGE_SIZE: nat := 0x1000

  /** C's unsigned 64-bit addition. */
  function Add64(x: u64, y: u64): u64 { (x + y) % TWO_64 }

  /** `x & ~(PAGE_SIZE - 1)`. */
  function PageDown(x: u64): u64 { x - x % PAGE_SIZE }

  datatype Option<+T> = None | Some(value: T)

  lemma MultipleOf8(x: nat, q: nat)
    requires x == 8 * q
    ensures x % 8 == 0
  {}

  lemma Associative<T>(a: seq<T>, b: seq<T>, c: seq<T>)
    ensures a + (b + c) == (a + b) + c
  {}
}
