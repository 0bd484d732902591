/** The optional value used for "no match" results and for JSON `null`. */
module Wrappers {

  datatype Option<+T> = None | Some(value: T)

}
