/** Optional values, used where the modelled code may have nothing to return
    (an aborted run, an empty container, an out-of-range read). */
module Wrappers {

  datatype Option<+T> = None | Some(value: T) {

    predicate IsFailure() {
      None?
    }

    function GetOr(default: T): T {
      match this
      case Some(v) => v
      case None => default
    }
  }
}
