/** The optional-value datatype shared by the filter modules. */
module Wrappers {
  datatype Option<+T> = None | Some(value: T)
}
