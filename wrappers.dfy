/** Small value wrappers shared by the grammar graph and the line buffer. */
module Wrappers {

  /** A value that may be absent: a missing JSON key, or Python's None. */
  datatype Option<+T> = None | Some(value: T)
}
