/** The optional value a null handle in the decoder stands for. */
module Wrappers {
  datatype Option<+T> = None | Some(value: T)
}
