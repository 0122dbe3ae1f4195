/** The usual optional-value datatype, used for "absent" values and for error paths. */
module Wrappers {

  datatype Option<+T> = None | Some(value: T)
}
