/** A value that may be missing: a null pointer, a free slot, a field not given. */
module Options {

  datatype Option<T> = None | Some(value: T)
}
