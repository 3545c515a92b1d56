/** Failure-compatible wrappers used for the lookups and for the service's outcome. */
module Wrappers {

  /** The result of a lookup that may find nothing. */
  datatype Option<+T> = None | Some(value: T)

  /** Either a computed value or the kind of error that was raised instead. */
  datatype Result<+R, +E> = Success(value: R) | Failure(error: E)
}
