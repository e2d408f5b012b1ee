/** Optional and fallible values: `Option` stands for a .NET reference that may
    be null, `Result` for an operation that may throw. */
module Wrappers {

  /** `None` is the null reference (a field never assigned, or assigned null). */
  datatype Option<+T> = None | Some(value: T) {

    /** The wrapped value, or `default` when this is null. */
    function GetOr(default: T): T {
      match this
      case Some(v) => v
      case None => default
    }
  }

  /** `Failure` is an exception thrown by the operation; nothing is returned then. */
  datatype Result<+R, +E> = Success(value: R) | Failure(error: E)
}
