/** Failure-carrying results. A Rust panic (a failed `assert!`, an `unwrap`
    of an error) is modelled as `None`. */
module Wrappers {

  datatype Option<+T> = None | Some(value: T)
}
