/** Small failure-carrying datatypes shared by the model. */
module Wrappers {

  /** A value that may be absent. */
  datatype Option<+T> = None | Some(value: T)

  /** The outcome of an operation that either returns normally or fails with an error value. */
  datatype Outcome<+E> = Pass | Fail(error: E)
}
