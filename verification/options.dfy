/** The optional value used where the Go program has a nil pointer or a missing attribute. */
module Options {

  datatype Option<+T> = None | Some(value: T)
}
