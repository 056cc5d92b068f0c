/** A value that may be missing: null references, and lookups that find nothing. */
module Wrappers {
  datatype Option<+T> = None | Some(value: T)
}
