/** Go's fixed-width integers, written out over Dafny's unbounded ones. */
module Ints {

  const TWO32: int := 0x1_0000_0000
  const TWO63: int := 0x8000_0000_0000_0000
  const TWO64: int := 0x1_0000_0000_0000_0000

  type u8 = x: int | 0 <= x < 256
  type u32 = x: int | 0 <= x < TWO32
  type u64 = x: int | 0 <= x < TWO64

  /** A conversion to uint32 keeps the low 32 bits. */
  function ToU32(x: int): u32 {
    x % TWO32
  }

  /** Two's-complement wrap-around of an int64 result. */
  function ToI64(x: int): int {
    var low := x % TWO64;
    if low < TWO63 then low else low - TWO64
  }

  /** `x - 1` on uint64: zero wraps to the largest value. */
  function Pred64(x: u64): u64 {
    if x == 0 then TWO64 - 1 else x - 1
  }

  /** Go's integer division, which truncates toward zero. */
  function Quot(x: int, y: int): int
    requires y > 0
  {
    if x >= 0 then x / y else -((-x) / y)
  }
}
