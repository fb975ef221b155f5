/** Failure-carrying values used where the Rust code returns `Result` or `Option`. */
module Results {

  /** Rust's `Result<T, E>`: a value or an error. */
  datatype Result<+T, +E> = Ok(value: T) | Err(error: E)

  /** Rust's `Option<T>`. */
  datatype Option<+T> = None | Some(value: T)
}
