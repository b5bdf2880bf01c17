/** Failure-compatible wrappers used for the scheduler's optional and failing results. */
module Wrappers {

  /** Either a value or an absent result. */
  datatype Option<+T> = None | Some(value: T)

  /** Either a value or the error message of a failed call. */
  datatype Result<+R, +E> = Success(value: R) | Failure(error: E)
}
