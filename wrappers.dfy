/** Failure-carrying results shared by every component: the C++ code throws
    std::logic_error or std::invalid_argument where these return Failure. */
module Wrappers {

  datatype Option<T> = None | Some(value: T)

  /** The two exception classes the containers, union-find and percolation grid throw. */
  datatype Error = LogicError | InvalidArgument

  datatype Result<T> = Success(value: T) | Failure(error: Error)
}
