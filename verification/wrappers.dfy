/** The optional value used across the model in place of a nullable
    reference (`float?` snapshots, an unset command target). */
module Wrappers {

  /** Some(value), or None for the absent / null case. */
  datatype Option<+T> = None | Some(value: T) {

    /** The wrapped value, or `default` when absent (C#'s `??`). */
    function GetOr(default: T): T
    {
      match this
      case Some(v) => v
      case None => default
    }
  }
}
