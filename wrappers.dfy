/** Optional values and success/failure results shared by the modules of this model. */
module Wrappers {

  /** An optional value: JavaScript's `undefined` is `None`. */
  datatype Option<+T> = None | Some(value: T)

  /** The value of an operation that either succeeds or fails with an error. */
  datatype Result<+T, +E> = Success(value: T) | Failure(error: E)
}
