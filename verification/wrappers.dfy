/** Failure-compatible wrappers shared by every module of the model. */
module Wrappers {

  /** A value that may be absent: a nil result, a missing map entry. */
  datatype Option<+T> = None | Some(value: T)

  /** The outcome of an operation that can abort with a diagnostic. */
  datatype Result<+T, +E> = Ok(value: T) | Err(error: E)
}
