/** The optional value used for the result of a partial parser. */
module Wrappers {

  datatype Option<+T> = None | Some(value: T)
}
