/** Optional values and results with an error, shared by the other modules. */
module Wrappers {

  /** Python's `None` on one side, a present value on the other. */
  datatype Option<+T> = None | Some(value: T)

  /** A computation that either returns a value or raises an exception. */
  datatype Result<+R, +E> = Success(value: R) | Failure(error: E)
}
