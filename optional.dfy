/** Python's "a value or `None`". */
module Optional {
  datatype Option<T> = None | Some(value: T)
}
