/** The optional-value datatype used for cleared letter slots, empty tiles and hints. */
module Wrappers {

  datatype Option<+T> = None | Some(value: T)
}
