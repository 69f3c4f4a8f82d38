/** The optional value used wherever the converter's Python code tests a
    result against `None` (a tag that `find` did not find, a renderer call
    that raised). */
module Wrappers {

  datatype Option<+T> = None | Some(value: T) {

    /** The wrapped value, or `default` when there is none. */
    function GetOr(default: T): T {
      match this
      case Some(v) => v
      case None => default
    }
  }
}
