/** Optional values: a lookup that may miss, a parse that may fail. */
module Options {

  datatype Option<+T> = None | Some(value: T)
}
