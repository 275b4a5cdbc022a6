/** A value that may be absent: Go's nil results and comma-ok lookups. */
module Options {
  datatype Option<+T> = None | Some(value: T)
}
