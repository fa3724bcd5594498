/** The optional value used wherever the source returns or stores a nullable reference. */
module Options {

  datatype Option<+T> = None | Some(value: T)
}
