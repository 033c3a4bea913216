/** Optional values and results with an error, used wherever the modelled
    scripts either produce nothing (a missing cell, a regex that does not
    match) or raise. */
module Wrappers {

  datatype Option<+T> = None | Some(value: T) {
    function GetOr(default: T): T {
      match this
      case Some(v) => v
      case None => default
    }
  }

  datatype Result<+T, +E> = Ok(value: T) | Err(error: E)
}
