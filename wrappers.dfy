/** The optional value used across the model: a lookup that may find nothing. */
module Wrappers {

  datatype Option<+T> = None | Some(value: T)
}
