/** The optional value that PHP expresses with `null`. */
module Wrappers {

  datatype Option<T> = None | Some(value: T)
}
