/** An optional value: `None` stands for the exceptions the harness would raise. */
module Wrappers {
  datatype Option<+T> = None | Some(value: T)
}
