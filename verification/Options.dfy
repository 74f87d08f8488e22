/**
 A value or none: the source's optional results, null attributes and error returns without a payload.
 */
module Options {
  datatype Option<T> = None | Some(value: T)
}
