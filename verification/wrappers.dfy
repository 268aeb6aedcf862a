/** Option and Result datatypes shared by the scraper model. */
module Wrappers {
  /** A value that may be absent: a CSS lookup that matched nothing, an anchor without a link. */
  datatype Option<+T> = None | Some(value: T)

  /** The outcome of an operation that either succeeds with a value or raises an error. */
  datatype Result<+R, +E> = Success(value: R) | Failure(error: E)
}
