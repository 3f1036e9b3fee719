/** The optional value used for "no match", "no such key" and JavaScript's
    `null`/`undefined` results. */
module Wrappers {

  datatype Option<+T> = None | Some(value: T)
}
