/** Small things that several models share. */
module Wrappers {

  /** A value that may be missing. */
  datatype Option<+T> = None | Some(value: T)

  /** A flag as a number, to count how many of several places hold a token. */
  function Count(b: bool): nat {
    if b then 1 else 0
  }

  function Min(x: nat, y: nat): nat {
    if x <= y then x else y
  }
}
