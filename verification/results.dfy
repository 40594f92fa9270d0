/** Option and Result types shared by the model. */
module Results {

  /** A value that may be absent, as `None` in Python. */
  datatype Option<+T> = None | Some(value: T)

  /** The outcome of an operation that may raise: its value, or the error it raised. */
  datatype Result<+T, +E> = Ok(value: T) | Err(error: E)
}
