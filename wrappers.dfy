/** The optional value used for a call that may fail and for a parse that may not succeed. */
module Wrappers {

  datatype Option<+T> = None | Some(value: T)
}
