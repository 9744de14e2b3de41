/** Failure-carrying values shared by the codec and the samplers. */
module Wrappers {

  /** An optional value: Kotlin's nullable results (`maxByOrNull`, `takeIf`). */
  datatype Option<+T> = None | Some(value: T)

  /** A value or the error that a Kotlin exception would have carried. */
  datatype Result<+T, +E> = Ok(value: T) | Err(error: E)
}
