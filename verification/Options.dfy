/** Optional values: the model of a property that may be absent, and of `null` answers. */
module Options {

  datatype Option<+T> = None | Some(value: T)
}
