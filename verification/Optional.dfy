/** The optional value every module shares: a Go pointer or a comma-ok result. */
module Optional {
  datatype Option<+T> = None | Some(value: T)
}
