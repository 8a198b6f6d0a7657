/** Small shared datatypes. */
module Wrappers {

  /** A value that may be absent; `None` stands for Java's `null`. */
  datatype Option<T> = None | Some(value: T)
}
