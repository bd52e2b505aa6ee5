/** An optional value, shared by the modules of this model. */
module Wrappers {

  /** A value that may be absent: NULL from bsearch, a failed decode. */
  datatype Option<+T> = None | Some(value: T)
}
