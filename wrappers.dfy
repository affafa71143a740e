/** Failure-carrying datatypes shared by the service model. */
module Wrappers {

  /** A value that may be absent: `undefined`, or a property that is not set. */
  datatype Option<+T> = None | Some(value: T)

  /** The outcome of an operation that can throw. */
  datatype Result<+T, +E> = Success(value: T) | Failure(error: E)
}
