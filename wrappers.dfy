/** Failure-carrying results: the source throws or returns `undefined`; the model returns one of these. */
module Wrappers {

  datatype Option<+T> = None | Some(value: T)

  datatype Result<+R, +E> = Success(value: R) | Failure(error: E)
}
