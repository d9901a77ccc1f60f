/** Optional values and error-carrying results, used for the loosely-typed
    record fields and for the helpers that raise exceptions. */
module Wrappers {

  datatype Option<+T> = None | Some(value: T) {
    /** The value, or a default when absent. */
    function GetOr(default: T): T {
      match this
      case Some(v) => v
      case None => default
    }
  }

  datatype Result<+T, +E> = Ok(value: T) | Err(error: E)
}
