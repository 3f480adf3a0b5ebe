/** The usual optional value, used for "the pattern did not match". */
module Wrappers {

  datatype Option<+T> = None | Some(value: T)
}
