/** Optional values: a SQL NULL, a missing dictionary entry, an unbound parameter. */
module Wrappers {

  datatype Option<+T> = None | Some(value: T)
}
