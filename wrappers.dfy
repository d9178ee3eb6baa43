/** The optional value used for the scanners' "matched / did not match" answers. */
module Wrappers {
  datatype Option<+T> = None | Some(value: T)
}
