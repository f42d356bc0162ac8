/** The optional-value datatype used by the matcher's row builder and the loader. */
module Wrappers {

  datatype Option<+T> = None | Some(value: T)

}
