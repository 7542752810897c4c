/** Basic types shared by the padding scheme and both ciphers: Rust's `u8`,
    `Option` and `Result`. */
module Prelude {

  /** An unsigned 8-bit value, Rust's `u8`. */
  newtype u8 = x: int | 0 <= x < 256

  datatype Option<+T> = None | Some(value: T)

  /** Rust's `Result`: the value of a successful call or the error it returned. */
  datatype Result<+T, +E> = Ok(value: T) | Err(error: E)
}
