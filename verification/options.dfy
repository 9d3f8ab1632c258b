/** The optional value that stands for a JavaScript `null` or `undefined`. */
module Options {
  datatype Option<+T> = None | Some(value: T)
}
