/** The optional value used wherever the source yields `undefined` or `null`. */
module Wrappers {

  datatype Option<+T> = None | Some(value: T)
}
