/** Optional values: `None` stands for a C# `null` reference or `default`. */
module Wrappers {
  datatype Option<+T> = None | Some(value: T)
}
