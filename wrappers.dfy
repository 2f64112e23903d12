/** Option and Result, the two failure-carrying datatypes the model uses. */
module Wrappers {

  /** A value that may be absent: a cancelled prompt, a missing CLI argument. */
  datatype Option<+T> = None | Some(value: T)

  /** Either a result or the error that ended the operation. */
  datatype Result<+R, +E> = Success(value: R) | Failure(error: E)
}
