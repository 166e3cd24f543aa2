/** An optional value, for the null pointers and not-found results of the modelled code. */
module Optional {
  datatype Option<+T> = None | Some(value: T)
}
