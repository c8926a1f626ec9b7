/** Small failure-carrying datatypes used across the model. */
module Wrappers {

  /** A value that may be absent (Python's `None`, a nullable column). */
  datatype Option<+T> = None | Some(value: T)

  /** The outcome of a check that either returns normally or raises `error`. */
  datatype Outcome<+E> = Pass | Fail(error: E)
}
