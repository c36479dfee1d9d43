/**
 The shapes in which the modelled code reports absence and failure.

 `TransformError` keeps the class of an error and drops the wording of its message. An
 `Outcome` is for code that may index past the end of a slice, which ends it in a panic.
 */
module Wrappers {

  datatype Option<+T> = None | Some(value: T)

  datatype TransformError =
    | InvalidInput
    | InvalidOptions
    | DecodeFailed
    | EncodeFailed
    | LimitExceeded
    | CapabilityMissing

  datatype Result<+T> = Ok(value: T) | Err(error: TransformError)

  datatype Outcome<+T> = Returned(value: T) | IndexPanic
}
