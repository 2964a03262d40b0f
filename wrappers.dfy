/** Option and Result values, standing for Python's `None` and for raised exceptions. */
module Wrappers {

  datatype Option<+T> = None | Some(value: T)

  /** `Failure` carries the message of the exception the Python method raises. */
  datatype Result<+T, +E> = Success(value: T) | Failure(error: E)
}
