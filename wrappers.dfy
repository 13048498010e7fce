/** The optional value used for "a row or nothing". */
module Wrappers {

  datatype Option<+T> = None | Some(value: T)

}
