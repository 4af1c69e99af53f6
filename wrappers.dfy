/** Optional values, standing for the source's `undefined`/`null` and Rust's `Option`. */
module Wrappers {

  datatype Option<+T> = None | Some(value: T)
}
