/** Optional values and outcomes that may fail, shared by every module. */
module Wrappers {

  /** A value that may be absent: the model's reading of a C# null. */
  datatype Option<+T> = None | Some(value: T)

  /** The result of an operation that may throw in the generator. */
  datatype Result<+T, +E> = Success(value: T) | Failure(error: E)
}
