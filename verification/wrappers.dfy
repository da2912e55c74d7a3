/** The optional value used wherever the C code uses a sentinel or a flag
    next to a value that may be missing. */
module Wrappers {

  datatype Option<+T> = None | Some(value: T)
}
