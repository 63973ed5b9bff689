/** The Some/None datatype used for Go's (value, error) returns: None stands
    for a non-nil error, whose message is not modelled. */
module Wrappers {

  datatype Option<+T> = None | Some(value: T)
}
