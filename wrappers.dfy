/** The optional-value datatype used for the outcome of parsing a line and
    for operations that the source lets raise an exception. */
module Wrappers {

  datatype Option<+T> = None | Some(value: T)
}
