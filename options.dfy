/** The optional-value wrapper used throughout the model for JavaScript values
    that may be `undefined` (a missing key, a `_.find` that matches nothing). */
module Options {

  datatype Option<+T> = None | Some(value: T) {

    /** The wrapped value, or `default` when there is none (`x || default`
        for values that are never falsy). */
    function GetOr(default: T): T {
      match this
      case Some(v) => v
      case None => default
    }
  }
}
