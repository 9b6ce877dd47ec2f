/** Small types and functions shared by several modules. */
module Wrappers {
  datatype Option<+T> = None | Some(value: T)

  function Copies<T>(v: T, n: nat): (r: seq<T>)
    ensures |r| == n && forall k :: 0 <= k < n ==> r[k] == v
  {
    seq(n, _ => v)
  }
}
