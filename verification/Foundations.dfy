/** Small datatypes shared by every component of the model. */
module Foundations {

  datatype Option<+T> = None | Some(value: T)

  datatype Result<+T, +E> = Ok(value: T) | Err(error: E)

  type Byte = b: int | 0 <= b < 256

  function Max(a: int, b: int): int {
    if a >= b then a else b
  }
}
