/** The optional-value datatype used wherever the source either returns a
    value or raises an exception that its caller catches. */
module Wrappers {

  datatype Option<+T> = None | Some(value: T)
}
