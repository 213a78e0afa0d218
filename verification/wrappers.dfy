/** Failure-carrying datatypes used throughout the model. */
module Wrappers {

  /** An optional value; stands for a Go nil value or a missing map entry. */
  datatype Option<+T> = None | Some(value: T)

  /** A value or an error; stands for Go's `(value, error)` return pairs. */
  datatype Result<+T, +E> = Success(value: T) | Failure(error: E)
}
