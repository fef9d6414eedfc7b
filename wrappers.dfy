module Wrappers {

  /** An optional value: `None` stands for a missing attribute. */
  datatype Option<+T> = None | Some(value: T)
}
