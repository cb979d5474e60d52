/** Failure-carrying results shared by every module of the model. */
module Wrappers {

  datatype Option<T> = None | Some(value: T)

  /** The one exception the modelled code can raise by itself: decodeURI's URIError. */
  datatype Error = URIError

  /** The outcome of a computation that may throw. */
  datatype Result<T> = Ok(value: T) | Err(error: Error)
}
