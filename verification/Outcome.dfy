/** Optional values, and the errors the modelled operations throw. */
module Outcome {

  datatype Option<+T> = None | Some(value: T)

  datatype Result<+T> = Ok(value: T) | Err(error: Error)

  datatype Error =
    | TooShort
    | InvalidTotalLength(total: nat)
    | StreamEnded(got: nat)
    | OutOfRange
    | ExceedsBuffer(total: nat)
    | ServerRefused(returnCode: nat)
    | NotConnected
    | NoRootElement
    | NotQsys
    | InvalidPath
    | UnknownField
}
