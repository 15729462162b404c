/** The optional value used for a pattern's instrument scope (`inst`, which may be null). */
module Wrappers {
  datatype Option<+T> = None | Some(value: T)
}
