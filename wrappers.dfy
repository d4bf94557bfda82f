/** Option and Result values shared by the protocol modules. */
module Wrappers {

  /** A value that may be absent (`null` or `undefined` in the original code). */
  datatype Option<+T> = None | Some(value: T)

  /** Either a value or the error that the original code returns or throws. */
  datatype Result<+R, +E> = Success(value: R) | Failure(error: E)
}
