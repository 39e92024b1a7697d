/** The Option datatype standing in for Java's nullable references. */
module Wrappers {

  /** `None` plays the role of `null`; `Some(v)` a present value. */
  datatype Option<+T> = None | Some(value: T) {

    /** The present value, falling back to `default` for a null. */
    function GetOr(default: T): T {
      match this
      case Some(v) => v
      case None => default
    }
  }
}
