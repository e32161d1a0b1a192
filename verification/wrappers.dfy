/** Failure-carrying return values shared by every operation of the library model. */
module Wrappers {

  /** A value that may be absent (a pandas lookup that found no row, a search that never ran). */
  datatype Option<+T> = None | Some(value: T)

  /** Either the new value of an operation or the error the request handler reports. */
  datatype Result<+T, +E> = Success(value: T) | Failure(error: E)
}
