/** The absent-or-present value that JavaScript expresses with `undefined`. */
module Optional {

  datatype Option<+T> = None | Some(value: T)
}
