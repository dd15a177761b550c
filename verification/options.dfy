/** Optional values, used where the client's C code has a "nothing here" case. */
module Options {

  datatype Option<+T> = None | Some(value: T)
}
