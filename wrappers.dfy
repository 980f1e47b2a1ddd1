/** An optional value: a missing `prev_out`, or a decoding that fails. */
module Wrappers {

  datatype Option<+T> = None | Some(value: T)
}
