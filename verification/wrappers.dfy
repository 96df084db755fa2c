/** Failure-carrying values shared by every module of the model. */
module Wrappers {

  /** An optional value: Go's nil pointer or absent request field is `None`. */
  datatype Option<+T> = None | Some(value: T)

  /** The outcome of an operation that either yields a value or fails with an error. */
  datatype Result<+T, +E> = Success(value: T) | Failure(error: E)
}
