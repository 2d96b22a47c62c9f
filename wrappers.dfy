/** The optional value shared by the style engine and the search dialog. */
module Wrappers {

  datatype Option<+T> = None | Some(value: T)
}
