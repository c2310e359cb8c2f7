/** An optional value: `None` stands for a null pointer, a failed lookup, or an abort. */
module Wrappers {
  datatype Option<+T> = None | Some(value: T)
}
