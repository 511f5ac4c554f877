/** The "value or nothing" result that the C code signals with a NULL pointer or `false`. */
module Options {

  datatype Option<T> = None | Some(value: T)
}
