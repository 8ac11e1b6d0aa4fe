/** The optional result the statistics return when there is too little data. */
module Optional {
  datatype Option<T> = None | Some(value: T)
}
