/** Failure-free optional values, used for C null pointers and Python exceptions. */
module Wrappers {
  datatype Option<+T> = None | Some(value: T)
}
