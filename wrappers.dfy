/** Failure-carrying results, standing in for the exceptions the C++ code throws. */
module Wrappers {

  /** A value or the error that prevented computing it. */
  datatype Result<+T, +E> = Success(value: T) | Failure(error: E)

  /** A pointer that may be NULL. */
  datatype Option<+T> = None | Some(value: T)

  /** Success without a value, or the error raised. */
  datatype Outcome<+E> = Pass | Fail(error: E)
}
