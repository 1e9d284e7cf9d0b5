/** An optional value: the result of a route reader, or the payload of an envelope. */
module Wrappers {

  datatype Option<+T> = None | Some(value: T)
}
