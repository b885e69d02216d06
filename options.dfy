/** Python's `None` beside an ordinary value. */
module Options {

  datatype Option<+T> = None | Some(value: T)
}
