/** The optional-value datatype used by the readers of the textual form. */
module Wrappers {

  datatype Option<+T> = None | Some(value: T)
}
