/** Optional values, standing in for JavaScript's `null`/`undefined` and for
    operations whose exceptions the model turns into a missing result. */
module Wrappers {

  datatype Option<+T> = None | Some(value: T)
}
