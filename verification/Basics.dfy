/** Optional values, unsigned words, and the division of C. */
module Basics {

  datatype Option<T> = None | Some(value: T)

  type u32 = x: int | 0 <= x < 0x1_0000_0000

  /** Division of C, which rounds towards zero. */
  function CDiv(a: int, b: int): int
    requires b > 0
  {
    if a >= 0 then a / b else -(-a / b)
  }

  /** Remainder of C, which has the sign of the dividend. */
  function CMod(a: int, b: int): int
    requires b > 0
  {
    if a >= 0 then a % b else -(-a % b)
  }
}
