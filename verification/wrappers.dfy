/** The optional value returned where the program answers `None`. */
module Wrappers {

  datatype Option<+T> = None | Some(value: T)

}
