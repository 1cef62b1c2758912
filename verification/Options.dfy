/** A value that may be absent: the source's `undefined` and `null`. */
module Options {

  datatype Option<T> = None | Some(value: T)
}
