/** Failure-carrying values shared by the whole model. */
module Wrappers {

  datatype Option<T> = None | Some(value: T)

  /** A Go `(value, error)` pair: either a value, or the text of the error. */
  datatype Reply<T> = Ok(value: T) | Err(msg: string)

  /** A Go call that returns only an `error` (nil or not). */
  datatype Outcome = Pass | Fail(msg: string)
}
