/** Small types shared by the modules of this project. */
module Common {

  datatype Option<+T> = None | Some(value: T)

  /** Bound of the 32-bit unsigned types (`uint32_t`, and `size_t` on the ESP32-S3). */
  const U32_LIMIT: nat := 0x1_0000_0000
  const U32_MAX: nat := 0xFFFF_FFFF

  newtype Byte = x: int | 0 <= x < 256

  function Min(a: int, b: int): int {
    if a <= b then a else b
  }
}
