/** The failure-or-value wrapper used for the parser's result and for the
    position of a delimiter. */
module Wrappers {
  datatype Option<+T> = None | Some(value: T)
}
