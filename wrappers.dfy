/** Option and Result, for JavaScript's `undefined` and for exceptions that the UI code throws. */
module Wrappers {

  /** A value that may be `undefined`. */
  datatype Option<+T> = None | Some(value: T)

  /** The outcome of an operation that may throw. */
  datatype Result<+T, +E> = Ok(value: T) | Err(error: E)
}
