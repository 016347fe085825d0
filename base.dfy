/** Value types shared by the whole model: optional values and results. */
module Base {

  datatype Option<+T> = None | Some(value: T)

  /** The outcome of a fallible call, as Rust's `Result<O, E>`. */
  datatype Result<+O, +E> = Ok(value: O) | Err(error: E)
}
