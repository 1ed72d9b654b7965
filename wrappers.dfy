/** The optional value used where the server's Java code has a null. */
module Wrappers {

  datatype Option<+T> = None | Some(value: T)
}
