/** Optional values and results with an error, the two shapes the TypeScript code
    expresses with `undefined` and with a thrown exception. */
module Wrappers {

  /** `None` plays the part of JavaScript's `undefined`. */
  datatype Option<+T> = None | Some(value: T)

  /** `Failure` is an exception thrown (and, in an async function, a rejected promise). */
  datatype Result<+T, +E> = Success(value: T) | Failure(error: E)
}
