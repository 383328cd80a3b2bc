/** The optional value used wherever the source returns "not found" or NULL. */
module Wrappers {
  datatype Option<+T> = None | Some(value: T)
}
