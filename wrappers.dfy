/** Values shared by every layer of the backend: optional values, the errors the
    layers throw at each other, and the settled outcome of an asynchronous call. */
module Wrappers {

  /** `null`/`undefined` (None) or a present value. */
  datatype Option<+T> = None | Some(value: T)

  /** A JavaScript `Error` as the backend throws it: a message and, on the errors
      the service classifies, an HTTP-intent `statusCode`. */
  datatype Error = Error(message: string, statusCode: Option<int>)

  /** A settled promise: fulfilled with a value, or rejected with an error. */
  datatype Result<+T> = Ok(value: T) | Err(error: Error)
}
