/** Bytes and 32-bit words. */
module Bytes {
  newtype byte = x: int | 0 <= x < 0x100
  newtype word = x: int | 0 <= x < 0x1_0000_0000
}
