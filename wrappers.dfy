/** Optional values: `None` stands for JavaScript's `undefined` (a missing field, an
    element that `find` did not locate) and for the `NaN` that `parseInt` returns. */
module Wrappers {

  datatype Option<+T> = None | Some(value: T)
}
