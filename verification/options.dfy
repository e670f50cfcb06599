/** An optional value; `None` plays the role of JavaScript's `null`. */
module Options {

  datatype Option<+T> = None | Some(value: T)
}
