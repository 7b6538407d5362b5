/** The optional value and the value-or-error types shared by the store and
    the router. */
module Wrappers {

  /** A value that may be absent (Python's `None`). */
  datatype Option<+T> = None | Some(value: T)

  /** Either a value or the error that was raised instead. */
  datatype Result<+R, +E> = Success(value: R) | Failure(error: E)
}
