/** Optional values and results shared by the diagram model. */
module Wrappers {

  /** Python's `None` or a value. */
  datatype Option<+T> = None | Some(value: T)

  /** An operation that either completes with a value or raises. */
  datatype Result<+T> = Success(value: T) | Failure(error: string)
}
