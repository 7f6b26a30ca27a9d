/** Optional values and the outcome of an awaited call: a resolved value or
    the exception the call throws. */
module Wrappers {

  datatype Option<+T> = None | Some(value: T)

  /** The exceptions the model distinguishes. */
  datatype Error =
    | Rejected   // the network or the backend refused the request
    | NotFound   // the document or the stored object does not exist
    | TypeError  // a property read on `undefined`

  datatype Result<+T> = Ok(value: T) | Err(error: Error)
}
