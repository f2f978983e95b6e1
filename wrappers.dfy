/** Option and Result wrappers shared by the other modules. */
module Wrappers {

  /** `null` / absent value in the source. */
  datatype Option<+T> = None | Some(value: T)

  /** An operation that either produces a value or stops with an error. */
  datatype Result<+T, +E> = Success(value: T) | Failure(error: E)
}
