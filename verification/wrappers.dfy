/** Failure-carrying wrappers used for the results of external collaborators. */
module Wrappers {

  /** A value that may be absent. */
  datatype Option<+T> = None | Some(value: T)

  /** A value or the error message an external call returned instead. */
  datatype Result<+T> = Success(value: T) | Failure(error: string)
}
