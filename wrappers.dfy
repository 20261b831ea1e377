/** Stock optional and result values, used for the source's nullable references and its exceptions. */
module Wrappers {

  /** A value that may be absent: the model of a nullable reference or an `out` that was not found. */
  datatype Option<+T> = None | Some(value: T)

  /** Either a value or the exception the source throws instead of producing one. */
  datatype Result<+R, +E> = Success(value: R) | Failure(error: E)
}
