/** An optional value: a JavaScript property or variable that may be undefined. */
module Options {

  datatype Option<T> = None | Some(value: T) {

    /** `x || fallback` for a value whose only falsy form is a missing one. */
    function GetOr(fallback: T): (r: T) {
      match this
      case Some(v) => v
      case None => fallback
    }
  }
}
