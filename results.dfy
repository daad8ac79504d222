/** Failure-carrying values: the model's stand-ins for Python exceptions and optional dictionary keys. */
module Results {

  datatype Option<+T> = None | Some(value: T)

  /** The value of an operation that either returns normally or raises. */
  datatype Result<+T, +E> = Ok(value: T) | Err(error: E)

  /** The outcome of a check that returns nothing when it passes and raises otherwise. */
  datatype Outcome<+E> = Pass | Fail(error: E)
}
