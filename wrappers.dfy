/** An optional value shared by the other modules. */
module Wrappers {

  /** A value that may be absent: Ruby's `nil` where a value is optional. */
  datatype Option<+T> = None | Some(value: T)
}
