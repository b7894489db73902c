/** The optional value carried by the partial-update and nullable columns. */
module Wrappers {

  datatype Option<+T> = None | Some(value: T)
}
