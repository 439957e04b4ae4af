/** Optional values and results with an error, used for the host's file
    operations and for the icon provider's answer. */
module Wrappers {

  datatype Option<+T> = None | Some(value: T)

  datatype Result<+R, +E> = Success(value: R) | Failure(error: E)
}
