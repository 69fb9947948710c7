/** Failure-carrying results, for the exception a caller of the content parser can see. */
module Wrappers {

  /** Either a value or the error that prevented it. */
  datatype Result<+T, +E> = Success(value: T) | Failure(error: E)
}
