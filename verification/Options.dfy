/** A value that may be missing: Ruby's nil, or what a Redis command returns for a key that is not there. */
module Options {

  datatype Option<T> = None | Some(value: T)
}
