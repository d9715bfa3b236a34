/** Optional values: PHP's `null` / `false` results become `None`. */
module Wrappers {

  datatype Option<+T> = None | Some(value: T) {
    /** The value, or `default` when there is none. */
    function UnwrapOr(default: T): T {
      if Some? then value else default
    }
  }
}
