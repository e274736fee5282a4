/** Optional values: Java's nullable references and "not found" answers. */
module Options {

  datatype Option<+T> = None | Some(value: T)
}
