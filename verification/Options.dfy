/** A nullable column or an omitted optional field. */
module Options {
  datatype Option<+T> = None | Some(value: T)
}
