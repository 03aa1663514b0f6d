/** The optional value used for null pointers and lookups that may miss. */
module Wrappers {
  datatype Option<+T> = None | Some(value: T)
}
