/** A value that may be absent; None also stands for a Python exception where a member says so. */
module Options {
  datatype Option<+T> = None | Some(value: T)
}
