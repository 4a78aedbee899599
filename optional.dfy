/** The optional value used for absent request fields, parameters and cache entries. */
module Optional {
  datatype Option<+T> = None | Some(value: T)
}
