/** Failure-carrying values shared by the wizard's modules. */
module Outcomes {

  /** A value that may be absent: JavaScript's `null` for a nullable field. */
  datatype Option<+T> = None | Some(value: T)

  /** The outcome of an operation that either yields a value or fails with a user-facing message. */
  datatype Result<+T> = Ok(value: T) | Err(message: string)
}
