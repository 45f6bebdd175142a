/** Failure-carrying wrappers shared by the other modules. A Python exception
    that the pipeline lets escape becomes a `Failure` value here. */
module Results {

  /** A value that may be absent (a failed search, a pattern that did not match). */
  datatype Option<+T> = None | Some(value: T)

  /** Either the value a computation produced or the error it raised. */
  datatype Result<+T, +E> = Success(value: T) | Failure(error: E)
}
