/** The optional-value datatype used for parse results and not-found answers. */
module Wrappers {

  datatype Option<+T> = None | Some(value: T)
}
