/** Types that several parts of the model share. */
module Basics {

  datatype Option<+T> = None | Some(value: T)

  type Byte = b: int | 0 <= b < 0x100

  type Int32 = x: int | INT32_MIN <= x <= INT32_MAX

  const INT32_MIN := -0x8000_0000
  const INT32_MAX := 0x7fff_ffff

  predicate InInt32(x: int) { INT32_MIN <= x <= INT32_MAX }
}
