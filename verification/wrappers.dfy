/** The optional-value datatype used wherever the source has `null`/`undefined`. */
module Wrappers {

  /** `None` stands for the source's `null` (or an absent optional property). */
  datatype Option<+T> = None | Some(value: T) {

    /** The wrapped value, or `default` when there is none. */
    function GetOr(default: T): T
    {
      match this
      case Some(v) => v
      case None => default
    }
  }
}
