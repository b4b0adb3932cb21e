/** Optional values and results that carry an error, for the places where
    Python returns `None` or raises. */
module Wrappers {
  datatype Option<T> = None | Some(value: T)

  datatype Result<T, E> = Success(value: T) | Failure(error: E)
}
