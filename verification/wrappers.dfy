/** The optional value used for the error a host call may raise and for optional settings. */
module Wrappers {

  datatype Option<+T> = None | Some(value: T)
}
