/** Machine-width integer types, bytes and the Option type shared by every component. */
module Common {

  const U32: nat := 0x1_0000_0000
  const U64: nat := 0x1_0000_0000_0000_0000
  const HALF32: nat := 0x8000_0000

  /** A value of C++ `uint32_t`. */
  type u32 = x: int | 0 <= x < 0x1_0000_0000
  /** A value of C++ `uint64_t`. */
  type u64 = x: int | 0 <= x < 0x1_0000_0000_0000_0000
  /** A value of C++ `uint16_t`. */
  type u16 = x: int | 0 <= x < 0x1_0000
  /** One byte of a `std::string`. */
  type Byte = x: int | 0 <= x < 0x100

  datatype Option<T> = None | Some(value: T)

  function Min(a: int, b: int): int { if a <= b then a else b }
  function Max(a: int, b: int): int { if a <= b then b else a }
}
