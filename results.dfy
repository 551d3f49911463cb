/** Failure-carrying values used in place of the exceptions and null pointers of the source. */
module Results {

  /** A value that may be absent (a null pointer, a missing map entry). */
  datatype Option<+T> = None | Some(value: T)

  /** Either a value or the error the source would throw. */
  datatype Result<+T, +E> = Ok(value: T) | Err(error: E)
}
