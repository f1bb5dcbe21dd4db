/** A value that may be absent; also a C string pointer that may be NULL. */
module Options {

  datatype Option<+T> = None | Some(value: T)

  type Text = Option<string>
}
