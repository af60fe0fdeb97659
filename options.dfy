/** Optional values: a missing row, an absent request field, a SQL NULL. */
module Options {
  datatype Option<+T> = None | Some(value: T)
}
