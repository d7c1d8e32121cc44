/** A value that may be absent: a failed lookup or a rejected flag value. */
module Wrappers {
  datatype Option<+T> = None | Some(value: T)
}
