/** Failure-carrying values shared by the model: Python's `None` and raised exceptions. */
module Wrappers {

  /** A value or Python's `None`. */
  datatype Option<+T> = None | Some(value: T)

  /** A returned value, or the exception the call raised instead. */
  datatype Result<+T, +E> = Success(value: T) | Failure(error: E)
}
