/** The two failure-carrying shapes of the model: `Option` for Python values that
    may be absent (`None`), and `Result` for a run that ends in an error. */
module Results {

  datatype Option<+T> = None | Some(value: T)

  datatype Result<+T, +E> = Success(value: T) | Failure(error: E)
}
