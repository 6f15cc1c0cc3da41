/** The optional result the source returns as std::optional. */
module Options {

  datatype Option<+T> = None | Some(value: T)
}
