/** Optional values, standing in for C#'s nullable references and `int?`. */
module Wrappers {

  datatype Option<+T> = None | Some(value: T)
}
