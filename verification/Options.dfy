/** A value that may be absent: the source's `null` and `undefined`. */
module Options {
  datatype Option<+T> = None | Some(value: T) {

    /** The source's `value ?? default`. */
    function GetOr(default: T): T {
      if Some? then value else default
    }
  }
}
