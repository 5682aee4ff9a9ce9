/** The optional value used wherever the source has a cell or field that may be `None`. */
module Wrappers {

  datatype Option<+T> = None | Some(value: T)
}
