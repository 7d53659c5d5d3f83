/** Wrappers: a nullable value, a value-or-exception, and a void-or-exception return. */
module Wrappers {

  /** A C# nullable reference: `None` stands for null. */
  datatype Option<+T> = None | Some(value: T) {

    /** C#'s `??` operator: the value, or `default` when null. */
    function GetOr(default: T): T {
      match this
      case Some(v) => v
      case None => default
    }
  }

  /** A call that either returns a value or throws `error`. */
  datatype Result<+R, +E> = Success(value: R) | Failure(error: E)

  /** A void call that either completes or throws `error`. */
  datatype Outcome<+E> = Pass | Fail(error: E)
}
