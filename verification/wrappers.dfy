/** The optional-value datatype shared by the whole model: JavaScript's
    `undefined` (a missing row, an absent property) becomes `None`. */
module Wrappers {

  datatype Option<+T> = None | Some(value: T) {

    /** The value when there is one, `fallback` when it is absent: the
        `x || fallback` of a lookup whose hits are never empty strings. */
    function GetOr(fallback: T): T {
      match this
      case Some(v) => v
      case None => fallback
    }
  }
}
