/** Failure-carrying wrappers shared by the rest of the model. */
module Results {

  /** A value that may be missing: a Redis key that is not set, an index not found. */
  datatype Option<+T> = None | Some(value: T)

  /** The outcome of an operation that can fail with an error of type E. */
  datatype Result<+T, +E> = Ok(value: T) | Err(error: E)
}
