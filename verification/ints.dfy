/** Fixed-width unsigned integers of the C sources, with their wrap-around written out. */
module Ints {

  /** uint8_t */
  newtype uint8 = x: int | 0 <= x < 0x100

  /** uint32_t */
  newtype uint32 = x: int | 0 <= x < 0x1_0000_0000

  /** The conversion of an int value to uint8_t (reduction modulo 2^8). */
  function ToUint8(x: int): uint8 {
    (x % 0x100) as uint8
  }

  /** Unsigned 32-bit subtraction `a - b`: the difference modulo 2^32. */
  function Sub32(a: uint32, b: uint32): uint32 {
    ((a as int - b as int) % 0x1_0000_0000) as uint32
  }

  /** Unsigned 32-bit addition `a + b`: the sum modulo 2^32. */
  function Add32(a: uint32, b: uint32): uint32 {
    ((a as int + b as int) % 0x1_0000_0000) as uint32
  }
}
