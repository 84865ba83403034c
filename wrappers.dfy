/** Option and Result values for the error paths of the model. */
module Wrappers {

  datatype Option<+T> = None | Some(value: T)

  /** A Go `(value, error)` pair: either a value or an error. */
  datatype Result<+T, +E> = Success(value: T) | Failure(error: E)
}
