/** Failure-compatible result types used wherever the modelled code returns null
    or throws. */
module Wrappers {

  /** A value that may be absent: the model of a C# or TypeScript null/undefined. */
  datatype Option<+T> = None | Some(value: T) {

    /** The value, or `default` when absent (the `??` operator). */
    function GetOr(default: T): T {
      match this
      case Some(v) => v
      case None => default
    }
  }

  /** Either a value or the exception that replaced it. */
  datatype Result<+R, +E> = Success(value: R) | Failure(error: E)

  /** A step that either completes or throws, without producing a value. */
  datatype Outcome<+E> = Pass | Fail(error: E)
}
