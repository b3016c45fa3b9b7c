/** Optional values and results with an error, for the program's `undefined`, `null` and thrown errors. */
module Wrappers {

  datatype Option<T> = None | Some(value: T)

  datatype Result<T, E> = Success(value: T) | Failure(error: E)
}
