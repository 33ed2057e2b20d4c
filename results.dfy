/** The error-carrying result shared by the grid and the universe. */
module Results {

  /** Either a value or the error that stopped the computation. */
  datatype Result<+T, +E> = Ok(value: T) | Err(error: E)
}
