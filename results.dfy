/** Option and Result values standing for Go's `(value, ok)` and `(value, error)` returns. */
module Results {

  datatype Option<+T> = None | Some(value: T)

  datatype Result<+T, +E> = Ok(value: T) | Err(error: E)
}
