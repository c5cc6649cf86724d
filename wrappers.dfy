/** The optional value used for attributes that may be absent and for URLs that may not parse. */
module Wrappers {

  datatype Option<+T> = None | Some(value: T)
}
