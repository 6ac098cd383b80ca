/** The optional value used for JavaScript's `null`/`undefined` fields and for "no match". */
module Wrappers {

  datatype Option<+T> = None | Some(value: T)
}
