/** Optional values and the fixed-width integers of Go. */
module Basics {

  datatype Option<+T> = None | Some(value: T)

  const TWO_63 := 0x8000_0000_0000_0000
  const TWO_64 := 0x1_0000_0000_0000_0000

  type UInt64 = x: nat | x < TWO_64

  /** What is left of a number in an int64, as after a conversion or an overflowing operation. */
  function ToInt64(x: int): int {
    if x % TWO_64 < TWO_63 then x % TWO_64 else x % TWO_64 - TWO_64
  }
}
