/** An optional value, the counterpart of Rust's `Option<T>`. */
module Options {

  datatype Option<+T> = None | Some(value: T)
}
