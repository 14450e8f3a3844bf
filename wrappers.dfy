/** Failure-compatible result types used across the model. */
module Wrappers {

  /** A value that may be missing: a regular-expression match, a parsed number. */
  datatype Option<+T> = None | Some(value: T)

  /** The outcome of an operation that either returns a value or throws. */
  datatype Result<+R, +E> = Success(value: R) | Failure(error: E)
}
