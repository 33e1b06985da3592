/** The Option datatype used for the results of line reads. */
module Wrappers {
  datatype Option<+T> = None | Some(value: T)
}
