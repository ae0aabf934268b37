/** The Option and Result datatypes every module shares. */
module Results {

  datatype Option<+T> = None | Some(value: T)

  /** The outcome of a Ruby call: a value, or the exception it raises. */
  datatype Result<+T, +E> = Success(value: T) | Failure(error: E)
}
