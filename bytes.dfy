/** Octets, as Rust's `u8` and the elements of `&[u8]`. */
module Bytes {
  type byte = x: int | 0 <= x < 256
}
