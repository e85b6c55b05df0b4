/** Ordering siblings: statics before dynamics, larger subtrees first. */
module RouteOrder {
  import opened RouteTree
  import Rearrange

  /** How many nodes there are below a level, the level included. */
  function Size(ns: seq<Node>): nat
    decreases ns
  {
    if ns == [] then 0 else 1 + Size(ns[0].children) + Size(ns[1..])
  }

  /** What siblings are compared by. */
  datatype Key = Key(dynamic: bool, below: nat)

  function KeyOf(n: Node): Key {
    Key(n.IsDynamic(), Size(n.children))
  }

  predicate KeyLess(a: Key, b: Key) {
    !a.dynamic && (b.dynamic || a.below > b.below)
  }

  /** The comparison siblings are sorted by. */
  predicate Less(a: Node, b: Node) {
    KeyLess(KeyOf(a), KeyOf(b))
  }

  ghost predicate SortedBy(ns: seq<Node>) {
    forall i, j :: 0 <= i < j < |ns| ==> !Less(ns[j], ns[i])
  }

  /** `r` is a result `prioritize` may leave: at every level some sorted arrangement (the sort fixes
      no order among equals), with every child list prioritized in turn. */
  ghost predicate Prioritized(ns: seq<Node>, r: seq<Node>)
    decreases ns
  {
    exists mid: seq<Node> :: Arranged(ns, mid) && |mid| == |r| &&
      forall i :: 0 <= i < |mid| ==> mid[i] in ns && PrioritizedNode(mid[i], r[i])
  }

  ghost predicate PrioritizedNode(n: Node, r: Node)
    decreases n
  {
    r == n.(children := r.children) && Prioritized(n.children, r.children)
  }

  /** A rearrangement in sorted order. */
  ghost predicate Arranged(ns: seq<Node>, mid: seq<Node>) {
    multiset(mid) == multiset(ns) && SortedBy(mid)
  }

  /** Sorted at every level. */
  ghost predicate Sorted(ns: seq<Node>)
    decreases ns
  {
    SortedBy(ns) && forall i :: 0 <= i < |ns| ==> Sorted(ns[i].children)
  }

  // ------------------------------------------------------------- rearranging a level

  lemma {:induction false} SizeSplit(a: seq<Node>, b: seq<Node>)
    ensures Size(a + b) == Size(a) + Size(b)
    decreases |a|
  {
    if a == [] {
      assert a + b == b;
    } else {
      assert (a + b)[0] == a[0] && (a + b)[1..] == a[1..] + b;
      SizeSplit(a[1..], b);
    }
  }

  lemma {:induction false} SizeArranged(a: seq<Node>, b: seq<Node>)
    requires multiset(a) == multiset(b)
    ensures Size(a) == Size(b)
    decreases |a|
  {
    Rearrange.Same(a, b);
    if a != [] {
      var j := Rearrange.TakeOut(a, b);
      SizeArranged(a[1..], b[..j] + b[j + 1..]);
      SizeSplit(b[..j], b[j + 1..]);
      SizeSplit(b[..j], b[j..]);
      assert b[..j] + b[j..] == b && b[j..][1..] == b[j + 1..];
    }
  }

  /** A rearranged level of distinct first bytes is one again. */
  lemma {:induction false} LevelArranged(a: seq<Node>, b: seq<Node>)
    requires Level(a) && multiset(a) == multiset(b)
    ensures Level(b)
  {
    Rearrange.Same(a, b);
    forall i, j | 0 <= i < j < |b|
      ensures b[i].s[0] != b[j].s[0]
    {
      var p :| 0 <= p < |a| && a[p] == b[i];
      Rearrange.Once(a, p);
      if b[i] == b[j] {
        Rearrange.Twice(b, i, j);
      }
    }
  }

  // ---------------------------------------------------- what ordering keeps and gives

  /** After ordering, the shape is the same and every level is sorted. */
  lemma {:induction false} PrioritizedShape(ns: seq<Node>, root: bool, r: seq<Node>)
    requires Shape(ns, root) && Prioritized(ns, r)
    ensures Shape(r, root) && Sorted(r) && Size(r) == Size(ns)
    decreases ns
  {
    var mid: seq<Node> :| Arranged(ns, mid) && |mid| == |r| &&
      forall i :: 0 <= i < |mid| ==> mid[i] in ns && PrioritizedNode(mid[i], r[i]);
    LevelArranged(ns, mid);
    SizeArranged(ns, mid);
    forall i | 0 <= i < |mid|
      ensures NodeShape(r[i], root) && Sorted(r[i].children) && Size(r[i].children) == Size(mid[i].children)
    {
      var p :| 0 <= p < |ns| && ns[p] == mid[i];
      assert PrioritizedNode(mid[i], r[i]) && NodeShape(ns[p], root);
      PrioritizedShape(ns[p].children, false, r[i].children);
    }
    SizeEach(mid, r);
    forall i, j | 0 <= i < j < |r|
      ensures !Less(r[j], r[i])
    {
      assert PrioritizedNode(mid[i], r[i]) && PrioritizedNode(mid[j], r[j]);
      assert !Less(mid[j], mid[i]);
    }
    assert forall i :: 0 <= i < |r| ==> PrioritizedNode(mid[i], r[i]);
  }

  lemma {:induction false} SizeEach(a: seq<Node>, b: seq<Node>)
    requires |a| == |b| && forall i :: 0 <= i < |a| ==> Size(a[i].children) == Size(b[i].children)
    ensures Size(a) == Size(b)
    decreases |a|
  {
    if a != [] {
      SizeEach(a[1..], b[1..]);
    }
  }

  /** Where an ordered level keeps a given sibling. */
  lemma KeptAt(ns: seq<Node>, r: seq<Node>, p: nat) returns (i: nat)
    requires Prioritized(ns, r) && p < |ns|
    ensures i < |r| && PrioritizedNode(ns[p], r[i])
  {
    var mid: seq<Node> :| Arranged(ns, mid) && |mid| == |r| &&
      forall i :: 0 <= i < |mid| ==> mid[i] in ns && PrioritizedNode(mid[i], r[i]);
    Rearrange.Same(mid, ns);
    i :| 0 <= i < |mid| && mid[i] == ns[p];
  }

  /** Where an ordered level took a sibling from. */
  lemma TakenFrom(ns: seq<Node>, r: seq<Node>, i: nat) returns (p: nat)
    requires Prioritized(ns, r) && i < |r|
    ensures p < |ns| && PrioritizedNode(ns[p], r[i])
  {
    var mid: seq<Node> :| Arranged(ns, mid) && |mid| == |r| &&
      forall i :: 0 <= i < |mid| ==> mid[i] in ns && PrioritizedNode(mid[i], r[i]);
    p :| 0 <= p < |ns| && ns[p] == mid[i];
  }

  lemma PrioritizedLevel(ns: seq<Node>, root: bool, r: seq<Node>)
    requires Shape(ns, root) && Prioritized(ns, r)
    ensures Level(ns) && Level(r)
  {
    PrioritizedShape(ns, root, r);
  }

  /** Ordering changes no entry and no boundary. */
  lemma {:induction false} PrioritizedGet(ns: seq<Node>, root: bool, r: seq<Node>, key: string)
    requires Shape(ns, root) && Prioritized(ns, r)
    ensures Get(r, key) == Get(ns, key) && Reach(r, key) == Reach(ns, key)
    decreases ns
  {
    PrioritizedLevel(ns, root, r);
    if key != "" && exists p :: 0 <= p < |ns| && ns[p].s[0] == key[0] {
      var p :| 0 <= p < |ns| && ns[p].s[0] == key[0];
      var i := KeptAt(ns, r, p);
      Only(ns, key, p);
      Only(r, key, i);
      PrioritizedNodeGet(ns[p], root, r[i], key);
    } else {
      Nobody(ns, key);
      forall i | 0 <= i < |r|
        ensures key != "" ==> r[i].s[0] != key[0]
      {
        var p := TakenFrom(ns, r, i);
      }
      Nobody(r, key);
    }
  }

  lemma {:induction false} PrioritizedNodeGet(n: Node, root: bool, r: Node, key: string)
    requires NodeShape(n, root) && PrioritizedNode(n, r)
    ensures GetNode(r, key) == GetNode(n, key) && ReachNode(r, key) == ReachNode(n, key)
    decreases n
  {
    if n.s <= key {
      PrioritizedGet(n.children, false, r.children, key[|n.s|..]);
    }
  }

  /** In a sorted level of this shape no static sibling stands behind the `:`. */
  lemma ColonLast(ns: seq<Node>, root: bool)
    requires Shape(ns, root) && Sorted(ns)
    ensures forall i :: 0 <= i < |ns| - 1 ==> ns[i].s != ":"
  {
    forall i | 0 <= i < |ns| - 1
      ensures ns[i].s != ":"
    {
      assert !Less(ns[i + 1], ns[i]);
      assert ns[i].s[0] != ns[i + 1].s[0];
    }
  }

  /** A level is sorted exactly when plain siblings stand before parameters and wildcards, and those with more nodes below
      before those with fewer. */
  lemma SortedMeans(ns: seq<Node>)
    ensures SortedBy(ns) <==> forall i, j :: 0 <= i < j < |ns| ==> InPlace(ns[i], ns[j])
  {
    forall i, j | 0 <= i < j < |ns|
      ensures !Less(ns[j], ns[i]) <==> InPlace(ns[i], ns[j])
    {
    }
  }

  /** A parameter or a wildcard. */
  predicate Varies(n: Node) {
    n.s == ":" || n.wildcardName != "" || n.rootWildcard
  }

  ghost predicate InPlace(first: Node, second: Node) {
    Varies(second) || (!Varies(first) && Size(first.children) >= Size(second.children))
  }
}
