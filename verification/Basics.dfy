/** Small definitions that several components share. */
module Basics {

  /** A value that may be missing. */
  datatype Option<T> = None | Some(value: T)

  function Pow2(k: nat): (p: nat)
    ensures p >= 1
  {
    if k == 0 then 1 else 2 * Pow2(k - 1)
  }
}
