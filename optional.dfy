/** An optional value: a field that may be unset, a lookup that may find nothing. */
module Optional {

  datatype Option<+T> = None | Some(value: T)

}
