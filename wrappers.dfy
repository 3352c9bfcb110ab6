/** Optional values and results with an error value, used for the partial readers and the
    thrown error of the model. */
module Wrappers {

  datatype Option<T> = None | Some(value: T)

  datatype Result<T, E> = Success(value: T) | Failure(error: E)
}
