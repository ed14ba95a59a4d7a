/** A value that may be missing: a pandas NaN cell, an unmatched join row. */
module Wrappers {

  datatype Option<+T> = None | Some(value: T)
}
