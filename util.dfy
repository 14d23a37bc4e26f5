/** Small shared vocabulary: optional values and fixed-width unsigned integers. */
module Util {

  /** A value that may be absent (a NULL pointer, a failed lookup). */
  datatype Option<+T> = None | Some(value: T)

  const TWO_32: int := 0x1_0000_0000
  const TWO_64: int := 0x1_0000_0000_0000_0000

  /** C `unsigned int` / `uint32_t`. */
  type u32 = x: int | 0 <= x < TWO_32

  /** C `uint64_t` / `size_t` on a 64-bit target. */
  type u64 = x: int | 0 <= x < TWO_64

  /** One byte of a file or of memory. */
  type byte = x: int | 0 <= x < 256

  function Min(a: int, b: int): int {
    if a < b then a else b
  }
}
