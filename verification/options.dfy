/** The Some/None datatype the rest of the model uses for values that may be absent:
    a query parameter that was not supplied, an environment variable that is unset,
    a decoder that meets malformed input. */
module Options {

  datatype Option<+T> = None | Some(value: T)
}
