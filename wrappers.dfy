// Result types standing in for the exceptions and `None` returns of the
// snapshot script and the downloader.
module Wrappers {

  datatype Option<+T> = None | Some(value: T)

  datatype Result<+R, +E> = Success(value: R) | Failure(error: E)

  /** A check that either passes or fails with an error, with no value. */
  datatype Outcome<+E> = Pass | Fail(error: E)
}
