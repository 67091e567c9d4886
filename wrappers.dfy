/** Optional values: a JSON key that may be absent, a lookup that may find nothing. */
module Wrappers {

  datatype Option<+T> = None | Some(value: T) {

    /** The value, or `default` when there is none: `dict.get(key, default)`. */
    function GetOr(default: T): T
    {
      if Some? then value else default
    }
  }

  function Min(a: int, b: int): int
  {
    if a <= b then a else b
  }
}
