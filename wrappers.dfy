/** Swift's optionals, shared by the modules of this model. */
module Wrappers {

  /** Swift's `T?`: `None` is `nil`. */
  datatype Option<+T> = None | Some(value: T) {

    /** The value, or `default` when there is none (Swift's `??`). */
    function GetOr(default: T): T {
      match this
      case Some(v) => v
      case None => default
    }
  }
}
