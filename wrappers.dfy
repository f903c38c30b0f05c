/** Optional values and error returns, used where the source either returns
    early with a message or returns SQL NULL. */
module Wrappers {

  datatype Option<+T> = None | Some(value: T)

  datatype Result<+R, +E> = Success(value: R) | Failure(error: E)
}
