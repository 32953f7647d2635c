/** The optional-value wrapper shared by the other modules. */
module Base {

  /** A value that may be absent: a JavaScript `null`/`undefined` field, or a failed parse. */
  datatype Option<+T> = None | Some(value: T)
}
