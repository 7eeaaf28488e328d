/** The optional value used wherever the transport either produces something or raises. */
module Wrappers {

  datatype Option<+T> = None | Some(value: T)
}
