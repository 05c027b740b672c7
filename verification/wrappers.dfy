/** Optional values, used for the C# references that may be null. */
module Wrappers {

  /** `None` stands for a null reference, `Some(v)` for a non-null value `v`. */
  datatype Option<+T> = None | Some(value: T)
}
