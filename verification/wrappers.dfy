/** Failure-compatible wrappers used across the model. */
module Wrappers {

  /** An optional value: a raycast that may miss. */
  datatype Option<+T> = None | Some(value: T)

  /** A value or the error that prevented computing it. */
  datatype Result<+R, +E> = Success(value: R) | Failure(error: E)
}
