/** Failure-carrying results used by the route handlers. */
module Wrappers {

  /** A value that may be absent (JavaScript's `null`). */
  datatype Option<+T> = None | Some(value: T)

  /** The outcome of a handler: a payload, or the `error` message of a `{ result: false }` response. */
  datatype Result<+R, +E> = Success(value: R) | Failure(error: E)
}
