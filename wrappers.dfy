/** The optional value the launcher hands on: a path, or nothing. */
module Wrappers {

  datatype Option<+T> = None | Some(value: T)
}
