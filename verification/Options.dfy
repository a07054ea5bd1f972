/** A value or none: null pointers and failed reads. */
module Options {

  datatype Option<T> = None | Some(value: T)
}
