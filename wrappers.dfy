/** The optional value used wherever the game hands back a pointer that may be null. */
module Wrappers {

  datatype Option<+T> = None | Some(value: T)
}
