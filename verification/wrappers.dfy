/** Optional values: a JavaScript `undefined`/`null`, or a `NaN` from parsing. */
module Wrappers {

  datatype Option<+T> = None | Some(value: T)
}
