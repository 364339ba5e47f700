/** The optional value used for the library's `std::optional` results and for
    the "no position found" answer of string searches. */
module Wrappers {

  datatype Option<+T> = None | Some(value: T)
}
