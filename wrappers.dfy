/** Stock failure-carrying datatypes used by the extractor model. */
module Wrappers {

  /** A value that may be absent (a cell that is not in the DOM, a NaN number). */
  datatype Option<+T> = None | Some(value: T)

  /** The outcome of an operation that may throw: its value, or the error it throws. */
  datatype Result<+T, +E> = Ok(value: T) | Err(error: E)
}
