/** Nullable values of the source (`int?`, `DateTime?`, a reference that may be null). */
module Wrappers {

  datatype Option<+T> = None | Some(value: T) {

    /** The C# `??` operator: the value, or `default` when absent. */
    function GetOr(default: T): T {
      match this
      case Some(v) => v
      case None => default
    }
  }
}
