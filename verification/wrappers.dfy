/** The optional value used wherever the Swift source has `T?`. */
module Wrappers {

  datatype Option<+T> = None | Some(value: T)
}
