/** Optional values. `None` also stands for JavaScript's `NaN` and `undefined`
    wherever the page computes a number that may not exist. */
module Wrappers {

  datatype Option<+T> = None | Some(value: T)
}
