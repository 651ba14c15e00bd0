/** Python's `None` next to a value: the Option datatype used across the model. */
module Wrappers {

  datatype Option<+T> = None | Some(value: T)
}
