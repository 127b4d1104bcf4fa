/** An optional value: the model's stand-in for Python's `None` and for
    lookups that may fail. */
module Options {

  datatype Option<+T> = None | Some(value: T)
}
