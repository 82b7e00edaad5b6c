/** Machine integers as ranges of `int`, the casts between them, and small helpers. */
module Ints {

  type U16 = x: int | 0 <= x < 0x1_0000

  type U32 = x: int | 0 <= x < 0x1_0000_0000

  type I32 = x: int | -0x8000_0000 <= x < 0x8000_0000

  /** A value reduced to `i32`, as wrapping arithmetic and casts do. */
  function ToI32(x: int): int {
    (x + 0x8000_0000) % 0x1_0000_0000 - 0x8000_0000
  }

  function ToU32(x: int): U32 {
    x % 0x1_0000_0000
  }

  function Min(a: int, b: int): int { if a < b then a else b }

  function Max(a: int, b: int): int { if a > b then a else b }
}
