/** The Option datatype shared by the whole model.
    `None` stands for a JavaScript value that is `undefined` (or, where a
    member says so, absent or of the wrong shape). */
module Wrappers {

  datatype Option<+T> = None | Some(value: T) {

    /** The wrapped value, or `default` when there is none. */
    function GetOr(default: T): T {
      match this
      case Some(v) => v
      case None => default
    }
  }
}
