/** The optional-value datatype used for lookups and for operations whose
    source raises an exception (KeyError, TypeError). */
module Wrappers {

  datatype Option<+T> = None | Some(value: T)

}
