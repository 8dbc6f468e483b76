/** The optional values of the source (`T?`). */
module Wrappers {
  datatype Option<+T> = None | Some(value: T) {
    function UnwrapOr(default: T): T {
      if this.Some? then value else default
    }
  }
}
