/** The optional value used for a lookup that may fail (a URL that does not
    parse, a pattern that does not occur, a string that is not a number). */
module Wrappers {

  datatype Option<+T> = None | Some(value: T)
}
