/** Bytes of a Rust `&str`, as numbers. */
module Bytes {

  newtype u8 = x: int | 0 <= x < 256
}
