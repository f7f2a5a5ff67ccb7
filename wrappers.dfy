/** The optional value used for the outcomes that may be missing: a decoded image, a validated grid. */
module Wrappers {

  datatype Option<+T> = None | Some(value: T)
}
