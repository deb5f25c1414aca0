/** The optional-value datatype that stands in for Java's nullable references. */
module Wrappers {

  /** `None` plays the role of a `null` return. */
  datatype Option<+T> = None | Some(value: T)
}
