/** The outcome of an operation whose failure the model keeps, instead of excluding it by a precondition. */
module Results {
  datatype Result<+T, +E> = Ok(value: T) | Err(error: E)
}
