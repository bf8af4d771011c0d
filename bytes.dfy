/** Octets, as Rust's `u8`. */
module Bytes {

  type uint8 = x: int | 0 <= x < 0x100
}
