/** Optional values: `std::string::npos` and similar "no result" answers. */
module Wrappers {
  datatype Option<+T> = None | Some(value: T)
}
