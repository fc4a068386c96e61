/** Failure-compatible wrappers used to model Python's exceptions and optional values. */
module Wrappers {

  /** A value that may be absent. */
  datatype Option<+T> = None | Some(value: T)

  /** Either a value or the error that replaced it. */
  datatype Result<+R, +E> = Success(value: R) | Failure(error: E)
}
