/**
 A value that may be missing: a null pointer, or a line that is refused.
 */
module Options {

  datatype Option<T> = None | Some(value: T)
}
