/** Optional values and success/failure outcomes used throughout the model. */
module Wrappers {

  datatype Option<T> = None | Some(value: T)

  /** A computation that either yields a value or fails with an error (a thrown exception in the library). */
  datatype Result<T, E> = Success(value: T) | Failure(error: E)
}
