/** Fixed-width integer helpers shared by the colour packer and the screen driver:
    the unsigned byte, the two's-complement conversion to std::int16_t, and the
    HIGH_BYTE / LOW_BYTE split of a 16-bit value. */
module Bits {

  /** std::uint8_t */
  type Byte = x: int | 0 <= x < 0x100

  /** The values a std::int16_t can hold. */
  predicate IsInt16(x: int) {
    -0x8000 <= x < 0x8000
  }

  /** Conversion of an integer to std::int16_t: the value is reduced modulo 2^16
      into the signed range (two's-complement wrap-around). */
  function ToInt16(x: int): (r: int)
    ensures IsInt16(r)
    ensures (r - x) % 0x10000 == 0
  {
    var m := x % 0x10000;
    if m < 0x8000 then m else m - 0x10000
  }

  /** HIGH_BYTE: bits 8..15 of the two's-complement representation. Dafny's `/`
      rounds down, so for a negative int16 this is the arithmetic-shift result. */
  function HighByte(x: int): Byte {
    (x / 0x100) % 0x100
  }

  /** LOW_BYTE: bits 0..7 of the two's-complement representation. */
  function LowByte(x: int): Byte {
    x % 0x100
  }
}
