/** Optional values and error-carrying results, used where the program returns
    `null` or reports a problem with an alert. */
module Wrappers {

  datatype Option<+T> = None | Some(value: T)

  datatype Result<+R, +E> = Success(value: R) | Failure(error: E)
}
