/** The optional value used by the matcher and the pattern reader. */
module Options {
  datatype Option<T> = None | Some(value: T)
}
