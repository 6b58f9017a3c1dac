/** The conventional optional value, used for a possibly missing number
    and for a session-state key that may not be set yet. */
module Wrappers {

  datatype Option<+T> = None | Some(value: T)
}
