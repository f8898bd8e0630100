/** An optional value: a key that may be absent from a message or a result. */
module Options {

  datatype Option<T> = None | Some(value: T)
}
