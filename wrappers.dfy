/** The optional value used for every call that may fail or find nothing. */
module Wrappers {

  datatype Option<+T> = None | Some(value: T)
}
