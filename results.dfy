/** Success/failure wrappers for the outcomes of calls the model cannot see. */
module Results {
  datatype Option<+T> = None | Some(value: T)

  datatype Result<+T, +E> = Ok(value: T) | Err(error: E)
}
