/** Failure-carrying results: the Python code raises an exception where these return Err. */
module Wrappers {

  datatype Option<+T> = None | Some(value: T)

  /** The outcome of a call that either returns a value or raises. The message names
      the Python exception the source raises at that point. */
  datatype Result<+T> = Ok(value: T) | Err(error: string)

  /** The outcome of a call that returns nothing or raises. */
  datatype Outcome = Done | Failed(error: string)
}
