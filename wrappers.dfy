/** The conventional optional value, used for every search that may find nothing. */
module Wrappers {

  datatype Option<+T> = None | Some(value: T)
}
