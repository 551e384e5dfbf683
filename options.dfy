/** The optional value used wherever the JavaScript code returns `null` or `undefined`. */
module Options {
  datatype Option<+T> = None | Some(value: T)
}
