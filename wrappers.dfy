/** Success-or-failure values used in place of Python's `None` returns and raised exceptions. */
module Wrappers {

  /** `None` plays the role of a Python function returning `None`. */
  datatype Option<+T> = None | Some(value: T)

  /** A conversion either succeeds with a value or fails with an error kind. */
  datatype Result<+R, +E> = Success(value: R) | Failure(error: E)
}
