/** Two-state optional values and results, used for Java's Optional and for
    the parser's exceptions. */
module Wrappers {

  datatype Option<+T> = None | Some(value: T) {
    /** Java's Optional.orElse */
    function GetOr(default: T): T {
      match this
      case Some(v) => v
      case None => default
    }
  }

  datatype Result<+R, +E> = Success(value: R) | Failure(error: E)
}
