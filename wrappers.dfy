/** The optional value used for the nullable columns and lookups of the model. */
module Wrappers {

  /** `None` stands for Python's `None` (an SQL NULL, a missing dictionary key). */
  datatype Option<+T> = None | Some(value: T)
}
