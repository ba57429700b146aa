/** JavaScript's `null` / `undefined` for the values the core handles. */
module Wrappers {

  /** `None` stands for a field that is `null` or absent (`undefined`). */
  datatype Option<+T> = None | Some(value: T) {

    /** The nullish-coalescing operator: `this ?? default`. */
    function GetOr(default: T): T {
      match this
      case Some(v) => v
      case None => default
    }
  }
}
