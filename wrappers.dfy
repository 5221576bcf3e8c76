/** The conventional optional-value datatype, used for the decoders' failure case. */
module Wrappers {

  datatype Option<+T> = None | Some(value: T)
}
