/** Failure-carrying wrappers shared by the rest of the model. */
module Common {

  /** A value that may be absent (a Java `null` or an unset field). */
  datatype Option<+T> = None | Some(value: T)

  /** Either a computed value or the error that stopped the computation
      (a Java exception that escapes, or an explicit error exit). */
  datatype Result<+T, +E> = Success(value: T) | Failure(error: E)
}
