/** Failure-carrying return values shared by the modules of this model. */
module Wrappers {

  /** A value that may be absent; `None` stands for Python's `None` and pandas' `NaN`. */
  datatype Option<+T> = None | Some(value: T)

  /** Either a computed value or the error app.py raises instead. */
  datatype Result<+R, +E> = Success(value: R) | Failure(error: E)
}
