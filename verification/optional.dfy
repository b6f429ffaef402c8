/** The absent-or-present values the source expresses with `undefined` and `null`. */
module Optional {
  datatype Option<T> = None | Some(value: T)
}
