/** The JavaScript `T | null` / `T | undefined` shapes of the game code, as an Option. */
module Wrappers {

  datatype Option<+T> = None | Some(value: T) {

    /** `x || default` for a field that may be missing: the held value, else `default`. */
    function GetOr(default: T): T {
      match this
      case Some(v) => v
      case None => default
    }
  }
}
