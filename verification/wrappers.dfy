/** Failure-carrying result types shared by every module of the model.
    Python exceptions and SQL NULLs of bot.py and scraper.py become the
    `Failure` and `None` cases of these datatypes. */
module Wrappers {

  /** A value that may be absent: a nullable SQL column, a `None` return. */
  datatype Option<+T> = None | Some(value: T)

  /** Either a value or the error the Python program would raise. */
  datatype Result<+R, +E> = Success(value: R) | Failure(error: E)
}
