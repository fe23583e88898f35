/** The optional value used for the custom glyph and for parse results. */
module Wrappers {

  datatype Option<+T> = None | Some(value: T)
}
