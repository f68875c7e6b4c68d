/** The `Option` and `Result` types used by the store model. */
module Results {

  /** An optional value; `None` stands for SQL NULL or a JavaScript `undefined`. */
  datatype Option<+T> = None | Some(value: T)

  /** The outcome of a database call: a value, or the error the call propagates. */
  datatype Result<+T, +E> = Ok(value: T) | Err(error: E)
}
