/** The optional value used where an operation may issue no request. */
module Wrappers {

  datatype Option<+T> = None | Some(value: T)
}
