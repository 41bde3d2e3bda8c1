/** Small sequence helpers shared by both algorithms. */
module Sequences {

  /** `s[::-1]`: the same elements, last first. */
  function Reversed<T>(s: seq<T>): (r: seq<T>)
  {
    seq(|s|, k requires 0 <= k < |s| => s[|s| - 1 - k])
  }

  /** Index of the first element of `a` that also occurs in `b`; `|a|` if there is none. */
  function FirstShared<T(==)>(a: seq<T>, b: seq<T>): (i: nat)
    ensures i <= |a|
    ensures forall k :: 0 <= k < i ==> a[k] !in b
    ensures i < |a| ==> a[i] in b
  {
    if a == [] then 0 else if a[0] in b then 0 else 1 + FirstShared(a[1..], b)
  }
}
