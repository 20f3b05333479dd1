/** The optional result of a consume pass: either nothing, or the key and
    payload of the element that expired. */
module Wrappers {

  datatype Option<+T> = None | Some(value: T)
}
