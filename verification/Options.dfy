/** The values that C marks by a null pointer, a negative number or a flag of their own. */
module Options {
  datatype Option<T> = None | Some(value: T)
}
