/** Optional values: `None` stands for JavaScript's NaN where a parse can fail. */
module Wrappers {

  datatype Option<+T> = None | Some(value: T)

}
