/** Option and Result, the two failure-carrying shapes the store's API uses. */
module Wrappers {

  /** `Option<T>` in the source: `get` returns one, the parser's outcome is one. */
  datatype Option<+T> = None | Some(value: T)

  /** `Result<T, io::Error>` in the source. */
  datatype Result<+T, +E> = Success(value: T) | Failure(error: E)
}
