/** Optional values and results that either hold a value or an error message
    (the source's thrown `Error(message)`). */
module Wrappers {
  datatype Option<T> = None | Some(value: T) {
    function GetOr(default: T): T {
      match this
      case Some(v) => v
      case None => default
    }
  }

  datatype Result<T> = Ok(value: T) | Err(message: string)
}
