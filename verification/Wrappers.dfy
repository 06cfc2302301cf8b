/** A value that may be missing: a null pointer, a lookup without a match. */
module Wrappers {
  datatype Option<+T> = None | Some(value: T)
}
