/** The optional value returned by the pattern recognisers and by a regex search. */
module Wrappers {
  datatype Option<+T> = None | Some(value: T)
}
