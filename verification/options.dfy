/** An optional value: `None` where JavaScript would give NaN or a field
    has no bound, `Some` otherwise. */
module Options {

  datatype Option<T> = None | Some(value: T)
}
