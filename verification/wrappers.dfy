/** Option and Result, used for JavaScript's `undefined` and for the error-first
    callback convention of the loader. */
module Wrappers {

  /** A value that may be absent; `None` stands for JavaScript's `undefined`. */
  datatype Option<+T> = None | Some(value: T)

  /** The outcome of an error-first callback: `Success(v)` is `callback('', v)`,
      `Failure(e)` is `callback(e)` with a non-empty message `e`. */
  datatype Result<+R, +E> = Success(value: R) | Failure(error: E)
}
