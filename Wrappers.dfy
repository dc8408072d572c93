/** The optional value used for "the stored file could be read and parsed, or not". */
module Wrappers {
  datatype Option<+T> = None | Some(value: T)
}
