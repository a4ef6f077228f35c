/** Types all parts share: bytes, presence or absence of a value, success or failure. */
module Basics {
  type byte = x: int | 0 <= x < 0x100

  datatype Option<+T> = None | Some(value: T)

  datatype Result<+T, +E> = Ok(value: T) | Err(error: E)
}
