/** The outcome of an operation that the source ends by raising an exception. */
module Results {

  datatype Result<+T, +E> = Success(value: T) | Failure(error: E)
}
