/** Byte values as the tools see them: elements of a Python `bytes`, 0..255. */
module Bytes {

  type byte = b: int | 0 <= b < 0x100
}
