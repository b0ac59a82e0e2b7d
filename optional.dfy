/** The "not found" signal: the source returns `null` from a lookup that misses. */
module Optional {

  datatype Option<+T> = None | Some(value: T)
}
