/** Results that may be missing: the NULLs and -1s of the source. */
module Options {
  datatype Option<T> = None | Some(value: T)
}
