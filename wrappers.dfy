/** The absent-or-present value used for nullable table cells and JSON fields. */
module Wrappers {

  datatype Option<+T> = None | Some(value: T)
}
