/** Small sequence helpers used by both the timeline and the id formatting. */
module Seqs {

  /** `n` copies of `x`, in the style of Python's `[x] * n`. */
  function Repeat<T>(x: T, n: nat): (r: seq<T>)
    ensures |r| == n
    ensures forall k :: 0 <= k < |r| ==> r[k] == x
  {
    if n == 0 then [] else [x] + Repeat(x, n - 1)
  }
}
