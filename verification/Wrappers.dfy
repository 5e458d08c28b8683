/** Definitions shared by the models. */
module Wrappers {

  /** A value that may be absent. */
  datatype Option<T> = None | Some(value: T)
  {
    function GetOr(default: T): T {
      if Some? then value else default
    }
  }

  function Min(a: nat, b: nat): nat {
    if a <= b then a else b
  }
}
