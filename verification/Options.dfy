/** A value, or the absence of one where the source raises or finds nothing. */
module Options {
  datatype Option<T> = None | Some(value: T)
}
