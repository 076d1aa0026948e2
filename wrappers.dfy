/** Optional values and results with an error, used for missing rows, missing
    environment variables and the exceptions the handlers let escape. */
module Wrappers {

  datatype Option<+T> = None | Some(value: T)

  datatype Result<+R, +E> = Success(value: R) | Failure(error: E)
}
