/** The "value or nothing" result that stands for a JavaScript value-or-null return. */
module Wrappers {

  datatype Option<+T> = None | Some(value: T)
}
