/** The optional value used for "absent" answers (a missing key, a line that does not parse). */
module Options {

  datatype Option<+T> = None | Some(value: T)
}
