/** The option type shared by every model in this project. */
module Wrappers {
  datatype Option<+T> = None | Some(value: T)
}
