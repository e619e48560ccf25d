/** Value types shared by the whole model: Rust's `u8` and `u16`, and the
    `Option` / `Result` sum types the program returns. */
module Prelude {

  /** An unsigned 8-bit integer (`u8`). */
  type byte = b: int | 0 <= b < 0x100

  /** The largest `u16`. */
  const U16_MAX: int := 0xFFFF

  /** An unsigned 16-bit integer (`u16`), used for TCP ports. */
  type u16 = x: int | 0 <= x <= U16_MAX

  datatype Option<+T> = None | Some(value: T)

  datatype Result<+T, +E> = Ok(value: T) | Err(error: E)
}
