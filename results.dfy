/**
 * Failure-carrying values used in place of Python's `None` returns and
 * raised exceptions.
 */
module Results {

  /** A value that may be absent (Python's `Optional[T]`). */
  datatype Option<+T> = None | Some(value: T)

  /** Either a value or the error that would have been raised instead. */
  datatype Result<+T, +E> = Ok(value: T) | Err(error: E)

  /** Success without a value, or a failure (a raised exception). */
  datatype Outcome<+E> = Pass | Fail(error: E)
}
