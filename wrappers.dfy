/** The optional value used wherever the source gets back a row or nothing. */
module Wrappers {

  datatype Option<+T> = None | Some(value: T)

}
