/** The optional value used for results that may be absent (a failed directory
    listing, an unreadable file, a pattern that does not occur). */
module Wrappers {
  datatype Option<+T> = None | Some(value: T)
}
