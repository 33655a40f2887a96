/** A value that may be absent, such as a request header that was not sent. */
module Wrappers {
  datatype Option<+T> = None | Some(value: T)
}
