/** The usual optional value, standing for PHP's "value or false/null". */
module Options {
  datatype Option<T> = None | Some(value: T)
}
