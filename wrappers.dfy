/** Failure-carrying wrappers shared by the whole model. */
module Wrappers {

  /** A value that may be absent (a null pointer, an unset SDValue, a missing lookup). */
  datatype Option<+T> = None | Some(value: T)

  /** The outcome of an operation the backend may abort with a fatal error. */
  datatype Result<+T, +E> = Success(value: T) | Failure(error: E)
}
