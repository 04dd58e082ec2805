/** Option and Result, standing in for arrow's Option and Either. */
module Wrappers {

  datatype Option<+T> = None | Some(value: T) {
    function GetOr(default: T): T {
      match this
      case Some(v) => v
      case None => default
    }
  }

  /** `Success` is arrow's `Right`, `Failure` its `Left`. */
  datatype Result<+R, +E> = Success(value: R) | Failure(error: E)
}
