/** The Option type used for operations that can fail without further detail. */
module Wrappers {

  datatype Option<+T> = None | Some(value: T)
}
