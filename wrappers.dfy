/** Option and Outcome, the two result shapes the model needs. */
module Wrappers {

  /** A value that may be absent: Python's `None` or an object. */
  datatype Option<T> = None | Some(value: T)

  /** The end of a command that either succeeds or raises an error. */
  datatype Outcome<E> = Pass | Fail(error: E)
}
