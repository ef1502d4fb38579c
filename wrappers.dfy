/** Failure-carrying wrappers shared by the other modules. */
module Wrappers {

  datatype Option<+T> = None | Some(value: T)

  /** The outcome of a route handler: a value, or the error that the
      handler's catch-all turns into an error page. */
  datatype Result<+T, +E> = Success(value: T) | Failure(error: E)
}
