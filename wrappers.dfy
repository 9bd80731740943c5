/** Option and Result datatypes shared by the other modules. */
module Wrappers {

  /** A value that may be missing. */
  datatype Option<+T> = None | Some(value: T)

  /** Either a result or the error that replaced it (an exception in the source). */
  datatype Result<+R, +E> = Success(value: R) | Failure(error: E)
}
