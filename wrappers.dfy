/** Small value wrappers shared by the modules of this project. */
module Wrappers {

  /** A present-or-absent value: a nullable pointer of the source, a map lookup. */
  datatype Option<+T> = None | Some(value: T)
}
