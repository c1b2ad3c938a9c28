/** Option and Result: Go's `(value, error)` returns and its zero-value map reads. */
module Wrappers {

  datatype Option<+T> = None | Some(value: T)

  datatype Result<+T, +E> = Ok(value: T) | Err(error: E)
}
