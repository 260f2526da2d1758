/** Failure-carrying values used by every operation of the model. */
module Results {

  /** A value that may be absent: a nullable column, an omitted argument. */
  datatype Option<+T> = None | Some(value: T)

  /** The outcome of an operation that can raise: the value it returns or the error it raises. */
  datatype Result<+T, +E> = Success(value: T) | Failure(error: E)
}
