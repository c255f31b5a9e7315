/** Optional values: the source's `null` results and the `isNaN` branch of a click. */
module Wrappers {

  datatype Option<+T> = None | Some(value: T)

}
