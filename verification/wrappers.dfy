/** The optional-value datatype used throughout the model for JavaScript's
    `undefined`/`null` and for "not found" results. */
module Wrappers {

  datatype Option<+T> = None | Some(value: T) {

    /** Returns the value held in Some, or `default` when None (JavaScript's `x || d`
        for values that are never falsy themselves). */
    function GetOr(default: T): T {
      match this
      case Some(v) => v
      case None => default
    }
  }
}
