/** Deleting one element of a Go slice in place. */
module Slices {

  /** A backing array after `append(s[:i], s[i+1:]...)` on its first `n` elements: they move up, the last one stays behind. */
  function Closed<T>(a: seq<T>, i: nat, n: nat): (r: seq<T>)
    requires i < n <= |a|
    ensures |r| == |a|
    ensures forall k {:trigger r[k]} :: 0 <= k < |a| ==> r[k] == if i <= k < n - 1 then a[k + 1] else a[k]
  {
    seq(|a|, k requires 0 <= k < |a| => if i <= k < n - 1 then a[k + 1] else a[k])
  }

  /** What is left are the first `n` elements without the one at `i`. */
  lemma ClosedFront<T>(a: seq<T>, i: nat, n: nat)
    requires i < n <= |a|
    ensures Closed(a, i, n)[..n - 1] == a[..n][..i] + a[..n][i + 1..]
  {
  }

  method CloseGap<T>(a: array<T>, i: nat, n: nat)
    requires i < n <= a.Length
    modifies a
    ensures a[..] == Closed(old(a[..]), i, n)
  {
    for j := i to n - 1
      invariant forall k :: 0 <= k < a.Length ==> a[k] == if i <= k < j then old(a[k + 1]) else old(a[k])
    {
      a[j] := a[j + 1];
    }
  }
}
