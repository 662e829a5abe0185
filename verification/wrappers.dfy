/** The optional value used for the nullable cursor pointer and for search results. */
module Wrappers {

  datatype Option<+T> = None | Some(value: T)
}
