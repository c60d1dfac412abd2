/** Optional values: an environment variable that may be unset, a request
    that may carry no file part, a stored name that may not parse. */
module Options {

  datatype Option<T> = None | Some(value: T)
}
