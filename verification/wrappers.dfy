/** Failure-compatible wrapper types shared by the codec and the two transfer engines. */
module Wrappers {

  /** A value that may be absent: a table lookup that misses, a payload not yet accepted. */
  datatype Option<+T> = None | Some(value: T)

  /** The outcome of an operation that can raise: `Success` carries the value, `Failure` the error. */
  datatype Result<+R, +E> = Success(value: R) | Failure(error: E)
}
