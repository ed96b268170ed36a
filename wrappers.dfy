/** Optional values and the outcomes of calls that may raise. */
module Wrappers {

  datatype Option<+T> = None | Some(value: T)

  /**
   * What a step of task construction or decoding produces: a value, an
   * exception that `from_dict` catches (`KeyError`, `ValueError`), or one that
   * escapes it (a `TypeError` or `AttributeError` from a value of the wrong type).
   */
  datatype Outcome<+T> = Ok(value: T) | Caught | Escaped
}
