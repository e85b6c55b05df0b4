/** The rotation of TLS session ticket keys. */
module Rotation {
  import opened Options

  const TICKETS: nat := 5

  /** One tick: the newest key first; without entropy the newest is taken again. */
  function Rotated<K>(keys: seq<K>, fresh': Option<K>): (r: seq<K>)
    requires 0 < |keys| <= TICKETS
    ensures 0 < |r| <= TICKETS
  {
    [if fresh'.Some? then fresh'.value else keys[0]] + keys[..if |keys| < TICKETS then |keys| else TICKETS - 1]
  }

  class KeyRing<K> {
    const keys: array<K>
    var len: nat

    ghost predicate Valid()
      reads this
    {
      0 < len <= keys.Length == TICKETS
    }

    ghost function Contents(): seq<K>
      requires Valid()
      reads this, keys
    {
      keys[..len]
    }

    constructor (first: K)
      ensures Valid() && fresh(keys) && Contents() == [first]
    {
      keys := new K[TICKETS](_ => first);
      len := 1;
    }

    /** Extend while there is room, shift from the back, put the new key in front. */
    method Tick(newTicketKey: Option<K>)
      requires Valid()
      modifies this, keys
      ensures Valid() && Contents() == Rotated(old(Contents()), newTicketKey)
    {
      ghost var was := Contents();
      if len < TICKETS {
        keys[len] := keys[0];
        len := len + 1;
      }
      var idx := len - 1;
      while idx >= 1
        invariant 0 <= idx < len && Valid() && len == old(len) + (if old(len) < TICKETS then 1 else 0)
        invariant forall j :: 0 <= j < idx ==> keys[j] == was[j]
        invariant forall j :: idx < j < len ==> keys[j] == was[j - 1]
        invariant idx == 0 ==> keys[0] == was[0]
      {
        keys[idx] := keys[idx - 1];
        idx := idx - 1;
      }
      if newTicketKey.Some? {
        keys[0] := newTicketKey.value;
      }
    }
  }

  /** The published keys after some ticks; each tick brings a key, or none without entropy. */
  function Published<K>(first: K, ticks: seq<Option<K>>): (r: seq<K>)
    ensures 0 < |r| <= TICKETS
  {
    if ticks == [] then [first] else Rotated(Published(first, ticks[..|ticks| - 1]), ticks[|ticks| - 1])
  }

  /** The key issued at tick `k`, the first at 0; a tick without entropy issues the one before again. */
  function Issued<K>(first: K, ticks: seq<Option<K>>, k: nat): K
    requires k <= |ticks|
  {
    if k == 0 then first
    else if ticks[k - 1].Some? then ticks[k - 1].value
    else Issued(first, ticks, k - 1)
  }

  lemma {:induction false} IssuedFront<K>(first: K, ticks: seq<Option<K>>, n: nat, k: nat)
    requires k <= n <= |ticks|
    ensures Issued(first, ticks[..n], k) == Issued(first, ticks, k)
    decreases k
  {
    if k > 0 {
      IssuedFront(first, ticks, n, k - 1);
    }
  }

  /** After any number of ticks the ring holds the newest five issues, newest first: an issue is published by its own
      tick and the four after it. */
  lemma {:induction false} PublishedNewest<K>(first: K, ticks: seq<Option<K>>)
    ensures |Published(first, ticks)| == if |ticks| < 4 then |ticks| + 1 else 5
    ensures forall j :: 0 <= j < |Published(first, ticks)| ==> Published(first, ticks)[j] == Issued(first, ticks, |ticks| - j)
    decreases |ticks|
  {
    if ticks != [] {
      var n := |ticks| - 1;
      var front := ticks[..n];
      PublishedNewest(first, front);
      forall j | 0 <= j < |Published(first, ticks)|
        ensures Published(first, ticks)[j] == Issued(first, ticks, |ticks| - j)
      {
        IssuedFront(first, ticks, n, if j == 0 then n else n + 1 - j);
      }
    }
  }

  /** When all issues differ, the key of tick `k` is in the ring exactly after tick `k` and the four ticks that follow. */
  lemma PublishedFive<K>(first: K, ticks: seq<Option<K>>, k: nat, n: nat)
    requires k <= |ticks| && n <= |ticks|
    requires forall a, b :: 0 <= a < b <= |ticks| ==> Issued(first, ticks, a) != Issued(first, ticks, b)
    ensures Issued(first, ticks, k) in Published(first, ticks[..n]) <==> k <= n < k + 5
  {
    var front, ring := ticks[..n], Published(first, ticks[..n]);
    PublishedNewest(first, front);
    forall j | 0 <= j < |ring|
      ensures ring[j] == Issued(first, ticks, n - j)
    {
      IssuedFront(first, ticks, n, n - j);
    }
    if k <= n < k + 5 {
      assert ring[n - k] == Issued(first, ticks, k);
    }
  }
}
