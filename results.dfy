/** Rust's `Option` and `Result`, as the crate uses them. */
module Results {

  datatype Option<+T> = None | Some(value: T)

  /** `Result<T, E>`: a value, or the error that stopped the computation. */
  datatype Result<+T, +E> = Ok(value: T) | Err(error: E)
}
