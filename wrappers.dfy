/** An attribute query or a lookup that may fail. */
module Wrappers {

  datatype Option<+T> = None | Some(value: T)
}
