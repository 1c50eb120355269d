/** Optional values and results with an error, as the model's operations return them. */
module Wrappers {

  datatype Option<+T> = None | Some(value: T)

  /** Swift's `Result<Success, Failure>`. */
  datatype Result<+T, +E> = Success(value: T) | Failure(error: E)
}
