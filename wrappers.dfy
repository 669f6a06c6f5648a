/** Optional values: `None` stands for JavaScript's NaN or `undefined` where the game produces one. */
module Wrappers {
  datatype Option<+T> = None | Some(value: T)
}
