/** Optional values and results with an error, used for nullable fields and for the
    exceptions the poll services raise. */
module Wrappers {

  datatype Option<+T> = None | Some(value: T)

  datatype Result<+T, +E> = Success(value: T) | Failure(error: E)
}
