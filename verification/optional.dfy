/** The absent-or-present value the scanner's parsers return in place of a Python exception. */
module Optional {

  datatype Option<+T> = None | Some(value: T)
}
