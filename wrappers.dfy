/** Failure-carrying result types shared by the panel models. */
module Wrappers {

  /** A value that may be absent (a nullable reference or a missing component). */
  datatype Option<+T> = None | Some(value: T)

  /** The outcome of an operation that can fail with an error value. */
  datatype Result<+R, +E> = Success(value: R) | Failure(error: E)
}
