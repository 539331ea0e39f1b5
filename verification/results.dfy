/** Failure-carrying wrappers shared by the configuration parsers and the renderer. */
module Results {

  /** A value that may be absent (Rust's `Option`). */
  datatype Option<+T> = None | Some(value: T)

  /** The outcome of a fallible configuration step (Rust's `Result`). */
  datatype Result<+T, +E> = Ok(value: T) | Err(error: E)
}
