/** Failure-compatible result types used throughout the model. */
module Wrappers {

  /** A value that may be absent; `None` models Java's `null` / an empty `Optional`. */
  datatype Option<+T> = None | Some(value: T)

  /** The outcome of an operation that either returns a value or raises an exception. */
  datatype Result<+R, +E> = Success(value: R) | Failure(error: E)

  /** The outcome of an operation that returns nothing but may raise an exception. */
  datatype Outcome<+E> = Pass | Fail(error: E)
}
