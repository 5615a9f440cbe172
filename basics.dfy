/** Option and Result values used across the model. */
module Basics {

  datatype Option<+T> = None | Some(value: T)

  /** A value or the error the source would have thrown. */
  datatype Result<+T, +E> = Ok(value: T) | Err(error: E)
}
