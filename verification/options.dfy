/** The optional-value type used wherever the program returns `Option<T>`. */
module Options {

  datatype Option<+T> = None | Some(value: T)
}
