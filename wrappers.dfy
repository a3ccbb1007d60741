/** Failure-carrying result types shared by the Discussion model. */
module Wrappers {

  /** A value that may be absent, as a PHP `null`. */
  datatype Option<+T> = None | Some(value: T)

  /** The outcome of an operation that can throw. */
  datatype Result<+R, +E> = Success(value: R) | Failure(error: E)
}
