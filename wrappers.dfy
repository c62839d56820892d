/** Optional values. `None` stands for JavaScript's `undefined` where an
    array index or a lookup misses. */
module Wrappers {

  datatype Option<+T> = None | Some(value: T)
}
