/** Failure-carrying result types shared by the calendar model. */
module Wrappers {

  /** A value that may be absent; used where the source leaves a pointer nil. */
  datatype Option<+T> = None | Some(value: T)

  /** The outcome of an operation that can fail with an error value. */
  datatype Result<+T, +E> = Success(value: T) | Failure(error: E)
}
