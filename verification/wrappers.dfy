/** The usual optional value, used for decoding failures and for Go's
    nil-or-error results. */
module Wrappers {
  datatype Option<+T> = None | Some(value: T)
}
