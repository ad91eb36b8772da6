/** Values the application may hold as `null`. */
module Wrappers {

  /** A Kotlin nullable: `None` is `null`, `Some(value)` a present value. */
  datatype Option<T> = None | Some(value: T) {

    /** Kotlin's elvis operator `this ?: fallback`. */
    function GetOr(fallback: T): T {
      if Some? then value else fallback
    }
  }
}
