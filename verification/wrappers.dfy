/** Optional values, used where the Rust code returns an `Option`. */
module Wrappers {

  /** Either no value, or exactly one `value`. */
  datatype Option<+T> = None | Some(value: T)
}
