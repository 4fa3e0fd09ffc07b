/** Outcome types shared by the model: Python's `None`, HTTP handler results, and checks that pass or raise. */
module Wrappers {

  /** A value that may be Python's `None`. */
  datatype Option<+T> = None | Some(value: T)

  /** A handler's reply: the returned value, or the `HTTPException` it raised. */
  datatype Result<+T, +E> = Ok(value: T) | Err(error: E)

  /** A check that returns normally or raises. */
  datatype Outcome<+E> = Pass | Fail(error: E)
}
