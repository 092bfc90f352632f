/** Optional values and error results shared by the three game modules. */
module Wrappers {

  /** Python's `None` or a value. */
  datatype Option<+T> = None | Some(value: T)

  /** A return value, or the exception the operation raises instead. */
  datatype Result<+R, +E> = Success(value: R) | Failure(error: E)
}
