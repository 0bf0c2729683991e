/** Option type used for operations of the program that can throw. */
module Wrappers {

  datatype Option<+T> = None | Some(value: T)
}
