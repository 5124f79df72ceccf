/** The optional value used for results that may be absent (a failed read, an unparsable label). */
module Wrappers {

  datatype Option<+T> = None | Some(value: T)
}
