/** Machine integers the compiler stores in its trees and instructions. */
module Ints {

  /** A 32-bit signed integer, the type of number literals once they reach
      the instruction stream (`I32Const`). */
  newtype Int32 = x: int | -0x8000_0000 <= x < 0x8000_0000

  const U32_MODULUS: int := 0x1_0000_0000

  /** Rust's `as u32` on an `i32`: the two's complement bit pattern read as
      an unsigned number. */
  function AsU32(x: Int32): (r: nat)
    ensures r < U32_MODULUS
    ensures 0 <= x ==> r == x as int
    ensures x < 0 ==> r == x as int + U32_MODULUS
  {
    (x as int) % U32_MODULUS
  }
}
