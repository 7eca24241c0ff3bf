/** The optional value used wherever the source returns `null` or may lack a value. */
module Wrappers {

  datatype Option<+T> = None | Some(value: T)
}
