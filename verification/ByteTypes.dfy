/** Bytes and the size of 32-bit integers. */
module ByteTypes {
  type byte = x: int | 0 <= x < 256

  const U32: nat := 0x1_0000_0000
}
