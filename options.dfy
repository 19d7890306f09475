/** Swift's optional values: `nil` or a wrapped value, and the `??` operator. */
module Options {

  datatype Option<+T> = None | Some(value: T) {

    /** `self ?? default`: the wrapped value, or `default` when there is none. */
    function GetOr(default: T): (r: T)
      ensures Some? ==> r == value
      ensures None? ==> r == default
    {
      match this
      case Some(v) => v
      case None => default
    }
  }
}
