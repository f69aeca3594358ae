/** The optional value used for "not found" results across the model. */
module Wrappers {
  datatype Option<+T> = None | Some(value: T)
}
