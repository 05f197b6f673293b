/** Values that the modelled code represents as a reference that may be null. */
module Wrappers {
  datatype Option<+T> = None | Some(value: T)
}
