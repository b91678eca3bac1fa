/** Failure-carrying wrappers shared by the rest of the model. */
module Results {

  /** A value that may be absent, like a JavaScript `null`-able field. */
  datatype Option<+T> = None | Some(value: T)

  /** The outcome of an operation that either produces a value or reports an error. */
  datatype Result<+R, +E> = Success(value: R) | Failure(error: E)
}
