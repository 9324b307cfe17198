/** Outcomes of operations that may fail or find nothing. */
module Results {

  /** The outcome of an operation that may fail, used where the source throws. */
  datatype Result<+T, +E> = Ok(value: T) | Err(error: E)

  datatype Option<+T> = None | Some(value: T)

}
