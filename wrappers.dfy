/** The optional value used wherever the source returns `undefined` or
    skips calling a callback. */
module Wrappers {
  datatype Option<+T> = None | Some(value: T)
}
