/** Failure-carrying datatypes shared by the extraction and segment modules. */
module Wrappers {

  /** A value that may be absent: a JavaScript `undefined`, or a tool call that threw. */
  datatype Option<+T> = None | Some(value: T)

  /** The outcome of a computation that may throw: `Failure` carries the exception message. */
  datatype Result<+T> = Success(value: T) | Failure(error: string)
}
