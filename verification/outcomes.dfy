/** Option and Result: the model's replacement for Python's None and for
    exceptions caught at a command boundary. */
module Outcomes {

  /** A value that may be absent: a null cell of a column, an omitted option. */
  datatype Option<+T> = None | Some(value: T)

  /** The outcome of a command: a value, or the error that ended it. */
  datatype Result<+R, +E> = Success(value: R) | Failure(error: E)
}
