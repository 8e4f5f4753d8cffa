/** Optional values: a missing cell of the table (a pandas NaN) is `None`. */
module Wrappers {

  datatype Option<T> = None | Some(value: T) {

    /** The present value, or `default` when the value is missing. */
    function GetOr(default: T): T {
      match this
      case Some(v) => v
      case None => default
    }
  }
}
