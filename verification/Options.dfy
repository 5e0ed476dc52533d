/** The usual optional value, standing for Python's `None` and SQL's `NULL`. */
module Options {
  datatype Option<+T> = None | Some(value: T)
}
