/** The optional value used for the effects' one-shot storage and for the outcome of running a system. */
module Wrappers {

  datatype Option<+T> = None | Some(value: T)
}
