/** The fixed-width integers of the Linux interfaces, as bounded mathematical integers. */
module Ints {

  const U64_LIMIT: int := 0x1_0000_0000_0000_0000

  /** Rust `u64` */
  type u64 = x: int | 0 <= x < 0x1_0000_0000_0000_0000

  /** Rust `i64` (the `__fsword_t` fields of `struct statfs` on 64-bit Linux) */
  type i64 = x: int | -0x8000_0000_0000_0000 <= x < 0x8000_0000_0000_0000

  /** Rust's `x as u64` on an `i64`: the two's-complement bits read as unsigned. */
  function I64AsU64(x: i64): (r: u64)
    ensures x >= 0 ==> r == x
    ensures x < 0 ==> r == x + U64_LIMIT
  {
    x % U64_LIMIT
  }
}
