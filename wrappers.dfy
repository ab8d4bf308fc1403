/** The conventional optional value: a pandas missing value is `None` here. */
module Wrappers {
  datatype Option<+T> = None | Some(value: T)
}
