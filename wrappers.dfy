/** The Option datatype: `None` stands for JavaScript's `undefined` where a lookup finds nothing. */
module Wrappers {
  datatype Option<+T> = None | Some(value: T)
}
