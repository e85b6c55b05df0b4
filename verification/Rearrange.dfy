/** Facts about sequences with the same elements. */
module Rearrange {

  /** The first element of one sequence, found in the other and taken out of both. */
  lemma TakeOut<T>(a: seq<T>, b: seq<T>) returns (j: nat)
    requires multiset(a) == multiset(b) && a != []
    ensures j < |b| && b[j] == a[0]
    ensures multiset(a[1..]) == multiset(b[..j] + b[j + 1..])
  {
    assert a[0] in multiset(b);
    j :| 0 <= j < |b| && b[j] == a[0];
    assert b == b[..j] + [b[j]] + b[j + 1..];
    assert a == [a[0]] + a[1..];
    assert multiset(a[1..]) == multiset(a) - multiset{a[0]};
    assert multiset(b[..j] + b[j + 1..]) == multiset(b) - multiset{a[0]};
  }

  lemma Same<T>(a: seq<T>, b: seq<T>)
    requires multiset(a) == multiset(b)
    ensures |a| == |b| && forall i :: 0 <= i < |b| ==> b[i] in a
  {
    assert |multiset(a)| == |a| && |multiset(b)| == |b|;
    forall i | 0 <= i < |b|
      ensures b[i] in a
    {
      assert b[i] in multiset(b);
    }
  }

  lemma Twice<T>(b: seq<T>, i: nat, j: nat)
    requires i < j < |b| && b[i] == b[j]
    ensures multiset(b)[b[i]] >= 2
  {
    assert b == b[..j] + b[j..];
    assert b[i] in b[..j] && b[j] in b[j..];
  }

  lemma Once<T>(a: seq<T>, p: nat)
    requires p < |a| && forall q :: 0 <= q < |a| && q != p ==> a[q] != a[p]
    ensures multiset(a)[a[p]] == 1
  {
    assert a == a[..p] + [a[p]] + a[p + 1..];
    assert a[p] !in a[..p] && a[p] !in a[p + 1..];
  }

  /** The indices below `n`. */
  function Iota(n: nat): (s: seq<nat>)
    ensures |s| == n && forall i :: 0 <= i < n ==> s[i] == i
  {
    seq(n, i => i)
  }

  /** The elements of `v` at the given places. */
  function Pick<T>(v: seq<T>, order: seq<nat>): (w: seq<T>)
    requires forall i :: 0 <= i < |order| ==> order[i] < |v|
    ensures |w| == |order| && forall i :: 0 <= i < |order| ==> w[i] == v[order[i]]
  {
    seq(|order|, i requires 0 <= i < |order| => v[order[i]])
  }

  lemma {:induction false} PickArranged<T>(v: seq<T>, a: seq<nat>, b: seq<nat>)
    requires multiset(a) == multiset(b) && forall i :: 0 <= i < |a| ==> a[i] < |v|
    requires forall i :: 0 <= i < |b| ==> b[i] < |v|
    ensures multiset(Pick(v, a)) == multiset(Pick(v, b))
    decreases |a|
  {
    Same(a, b);
    if a == [] {
      assert Pick(v, a) == Pick(v, b);
    } else {
      var j := TakeOut(a, b);
      var rest := b[..j] + b[j + 1..];
      PickArranged(v, a[1..], rest);
      assert Pick(v, a) == [v[a[0]]] + Pick(v, a[1..]);
      assert Pick(v, b) == Pick(v, b[..j]) + [v[b[j]]] + Pick(v, b[j + 1..]);
      assert Pick(v, rest) == Pick(v, b[..j]) + Pick(v, b[j + 1..]);
    }
  }

  /** Picking every place once picks the whole. */
  lemma PickAll<T>(v: seq<T>, order: seq<nat>)
    requires multiset(order) == multiset(Iota(|v|))
    ensures |order| == |v| && forall i :: 0 <= i < |order| ==> order[i] < |v|
    ensures forall i, j :: 0 <= i < j < |order| ==> order[i] != order[j]
    ensures multiset(Pick(v, order)) == multiset(v)
  {
    var all := Iota(|v|);
    Same(all, order);
    forall i, j | 0 <= i < j < |order|
      ensures order[i] != order[j]
    {
      Once(all, order[i]);
      if order[i] == order[j] {
        Twice(order, i, j);
      }
    }
    PickArranged(v, order, all);
    assert Pick(v, all) == v;
  }
}
