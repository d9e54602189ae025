/** The optional value used for JSON `null` / a missing argument. */
module Wrappers {

  datatype Option<+T> = None | Some(value: T)
}
