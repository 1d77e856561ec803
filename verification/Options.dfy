/** A value that may be absent: a NULL column, or a query without a row. */
module Options {

  datatype Option<T> = None | Some(value: T)
}
