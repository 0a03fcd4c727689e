/** The optional value used for the nullable pointers of the widget tree
    (a parent, a hover target, a search result). */
module Wrappers {

  datatype Option<+T> = None | Some(value: T)

}
