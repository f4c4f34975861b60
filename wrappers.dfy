/** Failure-carrying wrappers shared by the other modules. */
module Wrappers {

  /** A value that may be absent: a missing JSON field, a rejected parse. */
  datatype Option<+T> = None | Some(value: T)

  /** The outcome of a step that either produces a value or raises. */
  datatype Result<+T, +E> = Success(value: T) | Failure(error: E)
}
