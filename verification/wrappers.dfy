/** The optional value used where the program holds `undefined` or a node. */
module Wrappers {

  datatype Option<+T> = None | Some(value: T)

}
