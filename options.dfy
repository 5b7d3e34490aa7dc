/** Option and Result, the two failure-carrying shapes the model uses. */
module Options {

  /** A value that may be absent: Python's `None` or a dictionary/record that was not produced. */
  datatype Option<+T> = None | Some(value: T)

  /** The outcome of a call that may raise: `Failure` carries the exception that escaped. */
  datatype Result<+T, +E> = Success(value: T) | Failure(error: E)
}
