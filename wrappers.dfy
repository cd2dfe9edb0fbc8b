/** The optional result of a reader step that can fail. */
module Wrappers {

  datatype Option<+T> = None | Some(value: T)
}
