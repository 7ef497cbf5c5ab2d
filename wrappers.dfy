/** Optional values: a pointer that may be NULL, a pthread_t that may be zeroed. */
module Wrappers {
  datatype Option<+T> = None | Some(value: T)
}
