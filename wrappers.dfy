/** Option and Result values, used for the upstream stages that may fail and
    for the (list, error) pair returned by the fetcher. */
module Wrappers {

  datatype Option<+T> = None | Some(value: T)

  datatype Result<+R, +E> = Success(value: R) | Failure(error: E)
}
