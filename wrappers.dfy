/** Optional values, standing for `std::optional` and for the nullable pointers the
    source returns from lookups. */
module Wrappers {

  datatype Option<+T> = None | Some(value: T) {

    /** The value, or `default` when there is none (`std::optional::value_or`). */
    function GetOr(default: T): T {
      match this
      case Some(v) => v
      case None => default
    }
  }
}
