/** The optional value used for branch targets that may not be set yet. */
module Wrappers {
  datatype Option<+T> = None | Some(value: T)
}
