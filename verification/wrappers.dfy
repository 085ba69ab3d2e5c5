/** Optional values: the model's stand-in for the `null` and `undefined`
    results of the TypeScript sources. */
module Wrappers {

  datatype Option<+T> = None | Some(value: T)
}
