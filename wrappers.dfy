/** Optional values and results with an error, used for the null markers
    and the raised exceptions of the modelled pipeline. */
module Wrappers {

  datatype Option<+T> = None | Some(value: T)

  datatype Result<+T, +E> = Success(value: T) | Failure(error: E)
}
