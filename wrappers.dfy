/** Optional values: the model's stand-in for Java's null and for a
    parse that throws. */
module Wrappers {

  datatype Option<+T> = None | Some(value: T)
}
