/** Optional values and results with an error, as the store's functions return them. */
module Wrappers {

  /** A value that may be absent: Python's `Optional[...]` / a missing document field. */
  datatype Option<+T> = None | Some(value: T) {

    /** The value, or `default` when absent: Python's `dict.get(key, default)`. */
    function GetOr(default: T): T {
      match this
      case Some(v) => v
      case None => default
    }
  }

  /** Either a value or an error: the `(value, None)` / `(None, message)` pairs of the ledger. */
  datatype Result<+R, +E> = Success(value: R) | Failure(error: E)
}
