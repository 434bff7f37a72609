/** Optional values and error results shared by the modules of the solver model. */
module Wrappers {

  /** Python's `None` or a present value. */
  datatype Option<+T> = None | Some(value: T)

  /** A value, or the error the source would raise instead of returning. */
  datatype Result<+T, +E> = Success(value: T) | Failure(error: E)
}
