/** An optional value and a value-or-error. */
module Results {

  datatype Option<+T> = None | Some(value: T)

  /** Either the value a call returns or the exception it raises. */
  datatype Result<+T, +E> = Success(value: T) | Failure(error: E)
}
