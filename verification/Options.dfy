/** A value that may be absent: a NULL pointer, or a lookup that found nothing. */
module Options {
  datatype Option<T> = None | Some(value: T)
}
