/** The optional value used wherever the application answers "not found" with `None`. */
module Options {

  datatype Option<+T> = None | Some(value: T)
}
