/** The optional value used wherever the source yields `undefined`, `NaN`
    or "not found". */
module Wrappers {

  datatype Option<+T> = None | Some(value: T) {

    /** The carried value, or `default` when there is none (JavaScript's
        `x ?? default` on a possibly missing value). */
    function GetOr(default: T): T {
      match this
      case Some(v) => v
      case None => default
    }
  }
}
