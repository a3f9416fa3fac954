/** Success/failure values standing in for the repository's `Result`, `Ok` and `Err`
    helpers and for `null` returns. */
module Results {

  datatype Result<+T, +E> = Ok(value: T) | Err(error: E)

  datatype Option<+T> = None | Some(value: T)
}
