/** The optional value the Python code expresses with `None`. */
module Options {

  datatype Option<T> = None | Some(value: T)

}
