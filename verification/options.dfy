/** Optional values: the model's stand-in for java.util.Optional and for a
    Java reference that may be null. */
module Options {

  datatype Option<+T> = None | Some(value: T)
}
