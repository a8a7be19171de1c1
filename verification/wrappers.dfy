/** Optional values and error-carrying results shared by the other modules. */
module Wrappers {

  /** A value that may be absent; `None` stands for JavaScript's `null`/`undefined`. */
  datatype Option<+T> = None | Some(value: T)

  /** The outcome of an operation that can throw. */
  datatype Result<+T, +E> = Success(value: T) | Failure(error: E)

  /** JavaScript truthiness of an optional number, as in `if (lastTimestamp)`: `null` and `0` are falsy. */
  predicate Truthy(t: Option<real>) {
    t.Some? && t.value != 0.0
  }
}
