/** An optional value: a lookup that may find nothing, a parameter that may be absent. */
module Optional {

  datatype Option<T> = None | Some(value: T)
}
