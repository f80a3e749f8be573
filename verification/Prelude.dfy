/** The result types and the bytes that all modules share. */
module Prelude {
  datatype Option<+T> = None | Some(value: T)

  datatype Result<+T, +E> = Ok(value: T) | Err(error: E)

  /** A byte of a Git blob, of a stream or of UTF-8 text. */
  type Byte = b: int | 0 <= b < 0x100

  type Bytes = seq<Byte>
}
