/** Optional values, used where the source returns a null pointer or a failure code. */
module Options {
  datatype Option<+T> = None | Some(value: T)
}
