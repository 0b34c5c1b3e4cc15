/** The conventional Some/None datatype, standing in for a C pointer that may be NULL. */
module Wrappers {

  datatype Option<+T> = None | Some(value: T)
}
