/** Byte strings. One `char` stands for one byte of a Go string. */
module Text {

  /** The length of what stands before the first `c`, the whole length when there is none. */
  function Upto(s: string, c: char): (n: nat)
    ensures n <= |s|
    ensures forall j :: 0 <= j < n ==> s[j] != c
    ensures n < |s| ==> s[n] == c
  {
    if s == "" || s[0] == c then 0
    else
      var n := Upto(s[1..], c);
      assert forall j :: 0 < j < n + 1 ==> s[j] == s[1..][j - 1];
      n + 1
  }

  /** The position of the first `c` in `s`, or -1. */
  function IndexByte(s: string, c: char): (r: int)
  {
    var n := Upto(s, c);
    if n == |s| then -1 else n
  }

  lemma IndexByteIs(s: string, c: char)
    ensures if c in s then var r := IndexByte(s, c); 0 <= r < |s| && s[r] == c && c !in s[..r] else IndexByte(s, c) == -1
  {
  }

  /** How long `a` and `b` agree from the left. */
  function CommonPrefix(a: string, b: string): (k: nat)
    ensures k <= |a| && k <= |b|
    ensures a[..k] == b[..k]
    ensures k < |a| && k < |b| ==> a[k] != b[k]
  {
    if a == "" || b == "" || a[0] != b[0] then 0
    else
      var k := CommonPrefix(a[1..], b[1..]);
      assert a[..k + 1] == [a[0]] + a[1..][..k];
      assert b[..k + 1] == [b[0]] + b[1..][..k];
      k + 1
  }

  /** How often `c` occurs in `s`. */
  function Count(s: string, c: char): (n: nat)
    ensures n == 0 <==> c !in s
  {
    if s == "" then 0 else (if s[0] == c then 1 else 0) + Count(s[1..], c)
  }

  lemma {:induction false} CountConcat(a: string, b: string, c: char)
    ensures Count(a + b, c) == Count(a, c) + Count(b, c)
  {
    if a == "" {
      assert a + b == b;
    } else {
      assert (a + b)[1..] == a[1..] + b;
      CountConcat(a[1..], b, c);
    }
  }

  /** Dropping a common start keeps the prefix order. */
  lemma PrefixShift(p: string, a: string, b: string)
    ensures p + a <= p + b <==> a <= b
  {
    if p + a <= p + b {
      assert a == (p + a)[|p|..] && b[..|a|] == (p + b)[..|p| + |a|][|p|..];
    }
  }

  lemma Regroup(a: string, b: string, c: string, d: string)
    ensures a + b + (c + d) == a + (b + c) + d
  {
  }

  /** Upto is determined by what it promises. */
  lemma UptoIs(head: string, tail: string, c: char)
    requires c !in head && (tail == "" || tail[0] == c)
    ensures Upto(head + tail, c) == |head|
  {
    var s := head + tail;
    var n := Upto(s, c);
    assert forall j :: 0 <= j < |head| ==> s[j] == head[j];
    assert tail != "" ==> s[|head|] == c;
  }

  lemma CommonPrefixIs(a: string, b: string, k: nat)
    requires k <= |a| && k <= |b| && a[..k] == b[..k]
    requires k < |a| && k < |b| ==> a[k] != b[k]
    ensures CommonPrefix(a, b) == k
  {
    var c := CommonPrefix(a, b);
    assert forall j :: 0 <= j < k ==> a[j] == a[..k][j] == b[..k][j] == b[j];
    assert forall j :: 0 <= j < c ==> a[j] == a[..c][j] == b[..c][j] == b[j];
  }

  /** `a` and `b` agree on `u` and part right behind it. */
  predicate PartAt(a: string, b: string, u: string) {
    u < a && u < b && a[|u|] != b[|u|]
  }

  lemma PartBehind(p: string, a: string, b: string, u: string)
    requires PartAt(a, b, u)
    ensures PartAt(p + a, p + b, p + u)
  {
    PrefixShift(p, u, a);
    PrefixShift(p, u, b);
  }

  /** Where a longer string takes one side, the parting is the same. */
  lemma PartLonger(a: string, b: string, a': string, b': string, u: string)
    requires PartAt(a, b, u) && a <= a' && b <= b'
    ensures PartAt(a', b', u)
  {
  }
}
