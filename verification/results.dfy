/** Failure-carrying values used where the system returns null or throws. */
module Results {

  /** A value that may be absent (a JavaScript `null` or `undefined`). */
  datatype Option<+T> = None | Some(value: T)

  /** The outcome of a call that can fail with an error message. */
  datatype Result<+T> = Ok(value: T) | Err(message: string)
}
