/** Outcomes of the page store's operations. Go returns an `error` value
    whose message is the only distinguishing part; here each message is one
    constructor. */
module Errors {

  datatype Error =
    | KeyTooLarge       // "key size exceeds maximum allowed"
    | ValueTooLarge     // "value size exceeds maximum allowed"
    | NotEnoughSpace    // "not enough space"
    | NoPageWithSpace   // "no page with enough space"
    | KeyNotFound       // "key not found"
    | ReadFailed        // an error from the block store's Read
    | WriteFailed       // an error from the block store's Write

  datatype Option<T> = None | Some(value: T)

  datatype Result<T> = Ok(value: T) | Err(error: Error)

  /** A Go `error` that is either nil or not. */
  datatype Status = Success | Failure(error: Error)
}
