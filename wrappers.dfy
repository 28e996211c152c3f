/** The optional value used for the backend's reply and for what an export hands to the browser. */
module Wrappers {

  datatype Option<+T> = None | Some(value: T)
}
