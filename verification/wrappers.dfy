/** The optional value used for account look-ups that may find nothing. */
module Wrappers {

  datatype Option<+T> = None | Some(value: T)
}
