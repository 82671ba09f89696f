/** Small failure-carrying datatypes shared by the fiber model. */
module Wrappers {

  /** An optional value: `None` stands for JavaScript's `null`/`undefined`. */
  datatype Option<+T> = None | Some(value: T) {

    /** The value, or `default` when absent (JavaScript's `??`). */
    function GetOr(default: T): (v: T) {
      match this
      case Some(v) => v
      case None => default
    }
  }

  /** Either a value or the error a JavaScript call would have thrown. */
  datatype Result<+R, +E> = Success(value: R) | Failure(error: E)
}
