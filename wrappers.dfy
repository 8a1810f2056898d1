/** Option and Result, the two failure-carrying shapes the model needs. */
module Wrappers {

  /** An optional value: `None` plays the part of Python's `None` or a missing entry. */
  datatype Option<+T> = None | Some(value: T)

  /** The outcome of a call that may raise: `Failure` carries the exception's message. */
  datatype Result<+R, +E> = Success(value: R) | Failure(error: E)
}
