/** The result type of everything that may have no result. */
module Wrappers {

  datatype Option<+T> = None | Some(value: T)
}
