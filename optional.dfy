/** A value that may be absent: a nullable column value, an emitted statement. */
module Optional {

  datatype Option<+T> = None | Some(value: T)
}
