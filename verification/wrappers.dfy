/** Optional values and fallible results, used where the program stores
    `null`/`undefined` or throws. */
module Wrappers {

  /** A value that may be absent (`null` or `undefined` in the program). */
  datatype Option<+T> = None | Some(value: T)

  /** The outcome of an operation that may throw. */
  datatype Result<+T> = Success(value: T) | Failure(error: string)
}
