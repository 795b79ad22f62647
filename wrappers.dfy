/** A value that may be missing: `T | null` in the source's types. */
module Wrappers {
  datatype Option<+T> = None | Some(value: T)
}
