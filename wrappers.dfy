/** Failure-compatible value wrappers shared by the other modules. */
module Wrappers {

  datatype Option<+T> = None | Some(value: T)

  /** A value or the error the source would have thrown instead. */
  datatype Result<+T, +E> = Success(value: T) | Failure(error: E)
}
