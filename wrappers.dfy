/** The optional value used wherever the scripts return or read `None`. */
module Wrappers {

  datatype Option<+T> = None | Some(value: T)
}
