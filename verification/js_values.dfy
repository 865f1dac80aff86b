/** JavaScript values that may be missing, and the outcome of a call. */
module JsValues {

  /** A property or argument that is `undefined` (`None`) or holds a value. */
  datatype Option<+T> = None | Some(value: T) {

    /** What a default parameter (`x = d`) binds: the value if given, else `d`. */
    function OrDefault(d: T): T {
      if Some? then value else d
    }
  }

  /** A call that returned (or resolved) `value`, or threw (or rejected) `error`. */
  datatype Result<+T, +E> = Ok(value: T) | Err(error: E)
}
