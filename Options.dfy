/** The absent-or-present value that the games use for JavaScript's `null`. */
module Options {

  datatype Option<T> = None | Some(value: T)
}
