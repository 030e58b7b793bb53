/** Failure-carrying values shared by every decoder of this model. */
module Results {

  /** A value that may be absent, for parses that can fail. */
  datatype Option<+T> = None | Some(value: T)

  /** Either a decoded value or a classified error. */
  datatype Result<+T, +E> = Ok(value: T) | Err(error: E)
}
