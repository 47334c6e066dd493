/** Optional value: the abstract parse of the timer's entry and the result
    of reading a display back. */
module Wrappers {

  datatype Option<+T> = None | Some(value: T)
}
