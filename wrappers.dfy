/** The optional-value datatype used throughout the model: a kernel query
    that may find nothing, a `find` that may return `npos`. */
module Wrappers {

  datatype Option<+T> = None | Some(value: T)
}
