/** Optional values (pandas' NaN / missing cell) and results (a raised exception). */
module Wrappers {

  /** A table cell that may be missing: `None` stands for NaN. */
  datatype Option<+T> = None | Some(value: T)

  /** The outcome of a step that can raise an exception in the scripts. */
  datatype Result<+R, +E> = Success(value: R) | Failure(error: E)
}
