/** The optional value used for "no hit" results. */
module Optional {
  datatype Option<+T> = None | Some(value: T)
}
