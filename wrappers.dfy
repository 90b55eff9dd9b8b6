/** The optional value used wherever the program may produce nothing. */
module Wrappers {

  datatype Option<+T> = None | Some(value: T)

}
