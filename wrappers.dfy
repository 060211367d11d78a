/** Option and Result types shared by every stage of the pipeline model. */
module Wrappers {

  /** A value that may be missing: `None` stands for a pandas NaN cell. */
  datatype Option<+T> = None | Some(value: T) {
    function GetOr(default: T): T {
      match this
      case Some(v) => v
      case None => default
    }
  }

  /** The outcome of a step that can raise: `Err` carries what went wrong. */
  datatype Result<+T, +E> = Ok(value: T) | Err(error: E)
}
