/** The optional values of the standard library. */
module Wrappers {

  datatype Option<+T> = None | Some(value: T)
}
