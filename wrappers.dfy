/** The optional-value type shared by the other modules. */
module Wrappers {

  /** A present value, or its absence (Go's nil pointer, map or error). */
  datatype Option<+T> = None | Some(value: T)
}
