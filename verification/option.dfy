/** The absent-or-present value used for JavaScript's `undefined` results
    (`Array.prototype.find` misses, omitted optional arguments). */
module Optional {

  datatype Option<+T> = None | Some(value: T) {

    /** The value, or `default` when absent (JavaScript's `x || default`
        for an argument that is either an object or `undefined`). */
    function GetOr(default: T): (r: T)
      ensures Some? ==> r == value
      ensures None? ==> r == default
    {
      match this
      case Some(v) => v
      case None => default
    }
  }
}
