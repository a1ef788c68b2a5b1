/** The optional value used for storage entries that may be absent and for the accordion's open index. */
module Optional {
  datatype Option<+T> = None | Some(value: T)
}
