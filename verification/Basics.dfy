/** Types and machine integers that several modules share. */
module Basics {

  type byte = x: int | 0 <= x < 256

  datatype Option<T> = None | Some(value: T)

  const TWO_31 := 0x8000_0000
  const TWO_32 := 0x1_0000_0000

  predicate IsInt32(x: int) {
    -TWO_31 <= x < TWO_31
  }

  /** An unsigned 32-bit number read as an int. */
  function ToInt32(u: nat): int {
    if u < TWO_31 then u else u - TWO_32
  }
}
