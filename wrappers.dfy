/** The optional-value wrapper shared by the whole model. */
module Wrappers {

  /** A value that may be absent: a missing dictionary key, a `None` return. */
  datatype Option<+T> = None | Some(value: T) {

    /** The wrapped value, or `default` when there is none (Python's `d.get(k, default)`). */
    function GetOr(default: T): T {
      match this
      case Some(v) => v
      case None => default
    }
  }
}
