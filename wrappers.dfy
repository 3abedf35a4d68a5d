/** The optional value used for empty board cells and for the engine's
    "no piece yet" state. */
module Wrappers {
  datatype Option<+T> = None | Some(value: T)
}
