/** Option and Result, for the values the scripts may lack and the
    exceptions they raise. */
module Wrappers {
  datatype Option<+T> = None | Some(value: T)

  datatype Result<+T, +E> = Ok(value: T) | Err(error: E)
}

/** A byte and a byte string (Python `bytes`). */
module Bytes {
  newtype Byte = x: int | 0 <= x < 256

  type Bytes = seq<Byte>
}
