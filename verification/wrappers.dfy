/** Small failure-carrying datatypes shared by the other modules. */
module Wrappers {

  /** A value that may be absent: `None` plays the role of `std::string::npos`
      and of "no check failed". */
  datatype Option<+T> = None | Some(value: T)

  /** The result of a call that either completes or throws with a message. */
  datatype Outcome<+E> = Pass | Fail(error: E)
}
