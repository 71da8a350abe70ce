/** Values that may be missing: absent keys, failed parses, refused operations. */
module Options {

  datatype Option<+T> = None | Some(value: T)
}
