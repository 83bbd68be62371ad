/** The optional value used wherever the source returns `false`, `undefined` or a missing field. */
module Wrappers {

  datatype Option<+T> = None | Some(value: T)

}
