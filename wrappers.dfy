/** The optional value and the value-or-error wrappers used throughout the model. */
module Wrappers {

  /** A value that may be absent: JavaScript's `null`, `undefined` or `NaN`. */
  datatype Option<+T> = None | Some(value: T)

  /** The outcome of an operation that either returns a value or throws an error. */
  datatype Result<+T, +E> = Success(value: T) | Failure(error: E)
}
