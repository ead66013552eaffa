/** Failure-carrying datatypes: the errors the service raises, and absent query parameters. */
module Results {

  /** A query parameter that may be absent. */
  datatype Option<+T> = None | Some(value: T)

  /** A value, or the error that was raised instead of producing it. */
  datatype Result<+R, +E> = Ok(value: R) | Err(error: E)

  /** A check that either passes or raises an error. */
  datatype Outcome<+E> = Pass | Fail(error: E)
}
