/** The optional value used wherever the source has a value that may be missing
    (a NaN cell, a dictionary key that is absent, a pattern that does not match). */
module Wrappers {
  datatype Option<+T> = None | Some(value: T)
}
