/** Fixed-width integer types of alflib (u8, u32, u64) as bounded integers, byte strings, and an
    Option type for operations that can fail. */
module Common {
  type u8 = x: int | 0 <= x < 0x100
  type u32 = x: int | 0 <= x < 0x1_0000_0000
  type u64 = x: int | 0 <= x < 0x1_0000_0000_0000_0000

  const U32_MODULUS: int := 0x1_0000_0000
  const U64_MODULUS: int := 0x1_0000_0000_0000_0000

  /** A sequence of bytes, as held by std::string, Buffer or a raw u8 array. */
  type Bytes = seq<u8>

  datatype Option<T> = None | Some(value: T)
}
