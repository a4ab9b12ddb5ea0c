/** The nullable value the components keep in state (`null` or a value). */
module Optional {
  datatype Option<T> = None | Some(value: T)
}
