/** The optional value used wherever the original computes NaN instead of a number. */
module Wrappers {

  datatype Option<+T> = None | Some(value: T)
}
