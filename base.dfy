/** Small value types shared by every module of the model. */
module Base {

  /** An optional value (Rust's `Option`). */
  datatype Option<+T> = None | Some(value: T)

  /** A value or an error (Rust's `Result`). */
  datatype Result<+T, +E> = Ok(value: T) | Err(error: E)

  /** One byte of a pixel buffer (Rust's `u8`). */
  newtype Byte = x: int | 0 <= x < 256

  /** An unsigned 32-bit value (Rust's `u32`). */
  type U32 = x: int | 0 <= x < 0x1_0000_0000
}
