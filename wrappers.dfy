/** The optional value used for "no match here" and "this rectangle is skipped". */
module Wrappers {

  datatype Option<+T> = None | Some(value: T)
}
