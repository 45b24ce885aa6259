/** Optional values and results for the partial parsers and the row ingestion. */
module Wrappers {

  /** An optional value: the result of a parser that may reject its input. */
  datatype Option<+T> = None | Some(value: T)

  /** Either a value or the reason it could not be produced. */
  datatype Result<+R, +E> = Success(value: R) | Failure(error: E)
}
