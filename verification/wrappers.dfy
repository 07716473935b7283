/** Failure-compatible result types used across the model. */
module Wrappers {

  /** A value that may be missing: Python's `None` versus a present value. */
  datatype Option<+T> = None | Some(value: T)

  /** The outcome of a whole run: a value, or the reason the run stops. */
  datatype Result<+R, +E> = Success(value: R) | Failure(error: E)
}
