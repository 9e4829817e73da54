/** Optional values and success-or-error results: Python's `None` and raised exceptions. */
module Results {

  /** A value that may be Python's `None`. */
  datatype Option<+T> = None | Some(value: T)

  /** Either the value a Python function returns or the exception it raises. */
  datatype Result<+T, +E> = Success(value: T) | Failure(error: E)
}
