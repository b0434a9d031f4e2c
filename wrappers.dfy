/** The Option wrapper shared by every module of the model. */
module Wrappers {

  /** A value that may be absent: Ruby's nil, a missing dictionary key, or a run that never returns. */
  datatype Option<+T> = None | Some(value: T) {
    function GetOr(default: T): T {
      match this
      case Some(v) => v
      case None => default
    }
  }
}
