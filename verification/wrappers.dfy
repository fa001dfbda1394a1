/** Optional values and success/failure results, standing in for Ruby's nil
    and for the exceptions the synchronizer rescues. */
module Wrappers {

  /** A value that may be absent (Ruby's nil). */
  datatype Option<+T> = None | Some(value: T)

  /** The result of an operation that either produces a value or fails. */
  datatype Result<+R, +E> = Success(value: R) | Failure(error: E)
}
