/** The optional value the models return where the source returns NULL or fails. */
module Options {
  datatype Option<+T> = None | Some(value: T)
}
