/**
 * Index lists: the positions below `n` that satisfy a test, in increasing
 * order. The pipeline's filtering loops (dead URLs, staged snapshots, valid
 * records) keep exactly those positions of their input, and their
 * characterisation lemmas are stated with this function.
 */
module Indices {

  /** Every entry is below `n` and satisfies `p`, entries strictly increase, and every such position occurs. */
  function Matching(p: nat -> bool, n: nat): (idx: seq<nat>)
    ensures |idx| <= n
    ensures forall k :: 0 <= k < |idx| ==> idx[k] < n && p(idx[k])
    ensures forall j, k :: 0 <= j < k < |idx| ==> idx[j] < idx[k]
    ensures forall i :: 0 <= i < n && p(i) ==> i in idx
  {
    if n == 0 then [] else Matching(p, n - 1) + (if p(n - 1) then [n - 1] else [])
  }
}
