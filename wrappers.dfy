/** Option and Result, used for absent JSON keys and for raised exceptions. */
module Wrappers {

  datatype Option<+T> = None | Some(value: T)

  /** `Failure` carries the message an exception would be raised with. */
  datatype Result<+R, +E> = Success(value: R) | Failure(error: E)
}
