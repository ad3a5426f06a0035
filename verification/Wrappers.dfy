/** The optional results of the modelled operations. */
module Wrappers {
  datatype Option<+T> = None | Some(value: T)
}
