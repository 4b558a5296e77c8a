/** Optional values and results with an error, shared by the pipeline's modules. */
module Wrappers {

  /** A value that may be missing: a cell that pandas reads as NaN is `None`. */
  datatype Option<+T> = None | Some(value: T)

  /** The outcome of an operation that can raise. */
  datatype Result<+T, +E> = Success(value: T) | Failure(error: E)
}
