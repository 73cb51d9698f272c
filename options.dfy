/** The outcome of a fallible conversion. */
module Options {

  datatype Option<T> = None | Some(value: T)
}
