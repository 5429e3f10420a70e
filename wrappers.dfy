/** The optional value that stands for a Python call that either returns or
    raises `ValueError`. */
module Wrappers {

  datatype Option<+T> = None | Some(value: T)
}
