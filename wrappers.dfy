/** Optional values and error results, used for the notebook's nullable cells and raised errors. */
module Wrappers {

  /** A value that may be missing: a pandas cell that is NaN/None is `None`. */
  datatype Option<+T> = None | Some(value: T)

  /** The outcome of an operation that may raise instead of returning. */
  datatype Result<+T, +E> = Success(value: T) | Failure(error: E)
}
