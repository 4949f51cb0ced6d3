/** Optional and fallible results shared by the modules below. */
module Wrappers {

  /** A value that may be absent (Go's nil interface value). */
  datatype Option<+T> = None | Some(value: T)

  /** A value or the error that prevented computing it (Go's `(T, error)` pair). */
  datatype Result<+T, +E> = Success(value: T) | Failure(error: E)
}
