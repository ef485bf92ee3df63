/** Failure-carrying return types used throughout the model in place of
    Python's `None` returns and raised exceptions. */
module Wrappers {

  /** A value that may be absent, as a Python function returning `None`. */
  datatype Option<+T> = None | Some(value: T)

  /** The outcome of an operation that can raise: either its value or the
      error it raised. */
  datatype Result<+R, +E> = Success(value: R) | Failure(error: E)
}
