/** Bytes, optional values and results shared by the model's modules. */
module Wrappers {

  type byte = i: int | 0 <= i < 0x100

  type bytes = seq<byte>

  datatype Option<+T> = None | Some(value: T)

  datatype Result<+T, +E> = Ok(value: T) | Err(error: E)
}
