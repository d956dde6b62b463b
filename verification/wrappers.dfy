/** Optional values: the model's counterpart of std::optional and of a failed assertion or read. */
module Wrappers {

  datatype Option<+T> = None | Some(value: T)
}
