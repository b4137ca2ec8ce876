/** Option type shared by the modules of the web-server model. */
module Wrappers {
  datatype Option<+T> = None | Some(value: T)
}
