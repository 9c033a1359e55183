/** The usual Some/None wrapper, for values Ruby represents with `nil`. */
module Optional {
  datatype Option<+T> = None | Some(value: T)
}
