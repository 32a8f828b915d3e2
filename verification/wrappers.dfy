/** Option, for the external calls whose result may be missing. */
module Wrappers {
  datatype Option<+T> = None | Some(value: T)
}
