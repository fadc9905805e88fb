/** Optional values (Java's nullable references) and results with an error (Java's exceptions). */
module Wrappers {
  datatype Option<+T> = None | Some(value: T)

  datatype Result<+T, +E> = Success(value: T) | Failure(error: E)
}
