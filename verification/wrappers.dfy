/** Failure-carrying wrappers shared by the store model. */
module Wrappers {

  /** An optional value: java.util.Optional, or a reference that may be null. */
  datatype Option<T> = None | Some(value: T)

  /** The outcome of a call that either returns a value or throws. */
  datatype Result<T, E> = Success(value: T) | Failure(error: E)
}
