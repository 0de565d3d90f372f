/** Optional values, standing for JavaScript's `undefined` and falsy results. */
module Wrappers {

  datatype Option<+T> = None | Some(value: T)
}
