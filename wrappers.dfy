/** Optional values and results with an error, as used across the model. */
module Wrappers {

  /** A value that may be absent (an empty spreadsheet cell, a missing key). */
  datatype Option<+T> = None | Some(value: T)

  /** The outcome of an operation that the program can reject with an error. */
  datatype Result<+T, +E> = Success(value: T) | Failure(error: E)
}
