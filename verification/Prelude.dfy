/** Optional values and results, for Go's nil pointers and (value, error) pairs. */
module Prelude {
  /** An error, as far as the model looks into it: its text. */
  type Error = string

  datatype Option<+T> = None | Some(value: T)

  datatype Result<+T, +E> = Ok(value: T) | Err(error: E)
}
