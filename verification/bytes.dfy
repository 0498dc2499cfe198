/** Go strings are byte strings: `len(s)` counts bytes and `s[i]` is a byte.
    This module fixes the byte type and the ASCII codes the parsers look at. */
module Bytes {

  type uint8 = x: int | 0 <= x < 0x100
  type uint16 = x: int | 0 <= x < 0x1_0000

  /** A Go string. */
  type GoString = seq<uint8>

  const HASH: uint8 := 0x23        // '#'
  const PLUS: uint8 := 0x2B        // '+'
  const MINUS: uint8 := 0x2D       // '-'
  const DIGIT_0: uint8 := 0x30     // '0'
  const DIGIT_9: uint8 := 0x39     // '9'
  const UPPER_A: uint8 := 0x41     // 'A'
  const UPPER_Z: uint8 := 0x5A     // 'Z'
  const LOWER_A: uint8 := 0x61     // 'a'
  const LOWER_X: uint8 := 0x78     // 'x'
  const LOWER_Z: uint8 := 0x7A     // 'z'
}
