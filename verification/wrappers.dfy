/** The optional value used for "no price", "no button" and "no notification". */
module Wrappers {

  datatype Option<+T> = None | Some(value: T)
}
