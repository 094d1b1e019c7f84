/** The optional-value datatype shared by every module of the model. */
module Wrappers {

  /** Python's "value or None". */
  datatype Option<T> = None | Some(value: T) {

    /** The value, or `default` when there is none (Python's `d.get(k, default)`). */
    function GetOr(default: T): T {
      match this
      case Some(v) => v
      case None => default
    }
  }
}
