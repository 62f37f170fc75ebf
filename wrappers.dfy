/** The optional value used for the parent link of a context node. */
module Wrappers {

  datatype Option<+T> = None | Some(value: T)
}
