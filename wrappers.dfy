/** The optional value used for nullable pointers and results. */
module Wrappers {

  datatype Option<+T> = None | Some(value: T)
}
