/** Optional results: the parser's single syntax-error exit is `None`. */
module Wrappers {

  datatype Option<+T> = None | Some(value: T)
}
