/** Option and Result values standing for Python's None and for an operation that raises. */
module Base {

  datatype Option<+T> = None | Some(value: T)

  datatype Result<+T, +E> = Success(value: T) | Failure(error: E)
}
