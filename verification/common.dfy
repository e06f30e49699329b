/** Failure-carrying wrappers shared by every module of the model. */
module Common {

  /** A value that may be absent: SQL NULL, a missing storage entry. */
  datatype Option<+T> = None | Some(value: T)

  /** The outcome of an operation that can fail with an error value. */
  datatype Result<+R, +E> = Success(value: R) | Failure(error: E)
}
