/** A value that may be missing: the source's `None`, and its exceptions where only the fact counts. */
module Wrappers {
  datatype Option<+T> = None | Some(value: T)
}
