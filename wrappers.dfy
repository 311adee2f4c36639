/** Failure-carrying values shared by the other modules. */
module Wrappers {

  /** A value that may be absent (`undefined` in the repository's return types). */
  datatype Option<+T> = None | Some(value: T)

  /** Either a value or one of the service's business-rule errors. */
  datatype Result<+R, +E> = Success(value: R) | Failure(error: E)
}
