/** The optional value used for the source's nullable strings. */
module Wrappers {

  datatype Option<+T> = None | Some(value: T)
}
