/** Failure-carrying return values, used for the error paths of the modelled code. */
module Wrappers {

  /** A value that may be absent: a dictionary miss, a failed decode. */
  datatype Option<+T> = None | Some(value: T)

  /** A computation that either succeeds with a value or fails with an error. */
  datatype Result<+R, +E> = Success(value: R) | Failure(error: E)
}
