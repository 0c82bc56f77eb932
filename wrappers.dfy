/** Option and Result, the failure-carrying values the rest of the model uses. */
module Wrappers {

  /** A value that may be absent. In the tables of the pipeline, None stands for a
      pandas NaN (a missing cell). */
  datatype Option<+T> = None | Some(value: T)

  /** The outcome of an operation that can raise. */
  datatype Result<+T, +E> = Success(value: T) | Failure(error: E)
}
