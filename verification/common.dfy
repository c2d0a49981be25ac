/** Failure-carrying wrappers shared by the dockpatrol model. */
module Common {

  /** A value that may be absent: Python's `None` or a present value. */
  datatype Option<+T> = None | Some(value: T)

  /** The outcome of a step that can raise: a value, or the reason it raised. */
  datatype Result<+T, +E> = Success(value: T) | Failure(error: E)
}
