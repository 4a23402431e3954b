/** A value that may be absent: JavaScript's `undefined` where the component can meet it. */
module Wrappers {
  datatype Option<+T> = None | Some(value: T)
}
