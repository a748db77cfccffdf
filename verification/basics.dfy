/** Failure-compatible wrappers used by every stage of the pipeline model.
    `None` stands for a pandas NaN / SQL NULL; `Failure` for a raised exception. */
module Basics {

  datatype Option<+T> = None | Some(value: T) {
    function GetOr(default: T): T {
      match this
      case Some(v) => v
      case None => default
    }
  }

  datatype Result<+R, +E> = Success(value: R) | Failure(error: E)
}
