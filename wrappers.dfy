/** Optional values: `None` stands for JavaScript's `undefined` where a result may be absent. */
module Wrappers {

  datatype Option<+T> = None | Some(value: T)
}
