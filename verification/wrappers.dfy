/** The optional-value type used wherever the source has `undefined`, `null`
    or an absent key. */
module Wrappers {

  /** `None` is JavaScript's `undefined`/`null` (or, for numbers, `NaN`). */
  datatype Option<+T> = None | Some(value: T) {

    /** Returns the encapsulated value, or `default` when there is none. */
    function GetOr(default: T): T {
      match this
      case Some(v) => v
      case None => default
    }
  }
}
