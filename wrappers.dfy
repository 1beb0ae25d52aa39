/** Option: a value that may be absent (a null pointer in the modelled code). */
module Wrappers {
  datatype Option<+T> = None | Some(value: T)
}
