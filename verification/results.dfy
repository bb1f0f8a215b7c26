/** Success/failure values for the operations whose Python counterparts raise. */
module Results {

  /** A value that may be absent, as a failed `int(...)` conversion. */
  datatype Option<+T> = None | Some(value: T)

  /** The outcome of an operation that either produces a value or raises an error. */
  datatype Result<+T, +E> = Ok(value: T) | Err(error: E)
}
