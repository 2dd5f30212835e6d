/** Optional values and results shared by the feature extractor and the engine. */
module Wrappers {

  /** A value that may be absent: a pandas NaN cell, a missing column. */
  datatype Option<+T> = None | Some(value: T) {
    function GetOr(default: T): T {
      match this
      case Some(v) => v
      case None => default
    }
  }

  /** The outcome of an operation that the source lets raise. */
  datatype Result<+R, +E> = Ok(value: R) | Err(error: E)
}
