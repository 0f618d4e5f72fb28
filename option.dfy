/** An optional value, for the fields the page may leave `undefined`. */
module Optional {
  datatype Option<T> = None | Some(value: T)
}
