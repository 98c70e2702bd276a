/** Definitions shared by several modules. */
module Basics {

  datatype Option<T> = None | Some(value: T)

  /** At most the first `n` elements. */
  function Take<T>(s: seq<T>, n: nat): seq<T> {
    if |s| > n then s[..n] else s
  }
}
