/** The unsigned machine integers of the firmware, and the big-endian word layout its protocols use. */
module Bytes {
  type byte = x: int | 0 <= x < 256
  type u16 = x: int | 0 <= x < 0x1_0000

  /** `(uint16_t)(hi << 8) + lo` */
  function Word(hi: byte, lo: byte): u16 {
    hi * 256 + lo
  }

  /** `(w >> 8) & 0xff` */
  function Hi(w: u16): byte {
    w / 256
  }

  /** `w & 0xff` */
  function Lo(w: u16): byte {
    w % 256
  }
}
