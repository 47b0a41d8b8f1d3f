/** The optional value used for the selection, dialog answers and tag configuration. */
module Wrappers {

  datatype Option<T> = None | Some(value: T)
}
