/** Optional values, used for Python's `None` and for
    the parser's exception path. */
module Wrappers {

  datatype Option<+T> = None | Some(value: T)

}
