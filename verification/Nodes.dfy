/** The radix tree as the router keeps it: nodes changed in place. */
module RouteNodes {
  import opened Text
  import opened RouteTree
  import opened RouteOrder
  import Rearrange

  class TreeNode {
    var s: string
    var wildcardName: string
    var names: seq<string>
    var handlers: seq<Handler>
    var children: seq<TreeNode>
    var root: bool
    var rootWildcard: bool
    ghost var repr: set<TreeNode>

    ghost predicate Valid()
      reads this, repr
      decreases repr, 0
    {
      this in repr && ValidAll(children, repr - {this})
    }

    /** The subtree as a value. */
    ghost function Value(): Node
      requires Valid()
      reads this, repr
      decreases repr, 0
    {
      Node(s, wildcardName, names, handlers, Values(children, repr - {this}), root, rootWildcard)
    }

    constructor (s: string, wildcardName: string, names: seq<string>, handlers: seq<Handler>, root: bool, rootWildcard: bool)
      ensures Valid() && fresh(repr) && Value() == Node(s, wildcardName, names, handlers, [], root, rootWildcard)
    {
      this.s, this.wildcardName, this.names, this.handlers := s, wildcardName, names, handlers;
      this.children, this.root, this.rootWildcard := [], root, rootWildcard;
      this.repr := {this};
    }

    /** Change what is registered at this node. */
    method SetEntry(names': seq<string>, handlers': seq<Handler>)
      requires Valid()
      modifies this`names, this`handlers
      ensures Valid() && Value() == old(Value()).(names := names', handlers := handlers')
    {
      ghost var low := repr - {this};
      ghost var below := Values(children, low);
      names, handlers := names', handlers';
      assert ValidAll(children, low) && Values(children, low) == below;
    }

    /** Change the label of this node. */
    method SetLabel(s': string, wildcardName': string, rootWildcard': bool)
      requires Valid()
      modifies this`s, this`wildcardName, this`rootWildcard
      ensures Valid() && Value() == old(Value()).(s := s', wildcardName := wildcardName', rootWildcard := rootWildcard')
    {
      ghost var low := repr - {this};
      ghost var below := Values(children, low);
      s, wildcardName, rootWildcard := s', wildcardName', rootWildcard';
      assert ValidAll(children, low) && Values(children, low) == below;
    }

    /** Put other children below this node. */
    method SetChildren(children': seq<TreeNode>, ghost below: set<TreeNode>)
      requires ValidAll(children', below) && this !in below
      modifies this`children, this`repr
      ensures Valid() && repr == {this} + below && children == children'
      ensures Value() == Node(s, wildcardName, names, handlers, old(Values(children', below)), root, rootWildcard)
    {
      ghost var v := Values(children', below);
      children, repr := children', {this} + below;
      assert repr - {this} == below && Values(children', below) == v;
    }

    /** Put other children, made of the same nodes, below this node. */
    method Reorder(children': seq<TreeNode>)
      requires this in repr && ValidAll(children', repr - {this})
      modifies this`children
      ensures Valid() && Value() == Node(s, wildcardName, names, handlers, old(Values(children', repr - {this})), root, rootWildcard)
    {
      ghost var v := Values(children', repr - {this});
      children := children';
      assert Values(children', repr - {this}) == v;
    }

    /** Overwrite this node, with other children below it. */
    method Become(s': string, wildcardName': string, names': seq<string>, handlers': seq<Handler>,
                  children': seq<TreeNode>, rootWildcard': bool, ghost below: set<TreeNode>)
      requires ValidAll(children', below) && this !in below
      modifies this
      ensures Valid() && repr == {this} + below
      ensures Value() == Node(s', wildcardName', names', handlers', old(Values(children', below)), old(root), rootWildcard')
    {
      SetChildren(children', below);
      SetLabel(s', wildcardName', rootWildcard');
      SetEntry(names', handlers');
    }

    /** A new node that takes over everything but the first `k` bytes of the label. */
    method Below(k: nat) returns (low: TreeNode)
      requires Valid() && k <= |s|
      ensures fresh(low) && low.Valid() && low.repr == {low} + (repr - {this})
      ensures low.Value() == Lower(Value(), k)
    {
      low := new TreeNode(s[k..], wildcardName, names, handlers, false, false);
      low.Become(s[k..], wildcardName, names, handlers, children, false, repr - {this});
    }

    /** Make this node the fork of its label at `k` and a new leaf. */
    method ForkAt(k: nat, path: string, wildcardName': string, names': seq<string>, handlers': seq<Handler>)
      requires Valid() && k <= |s|
      modifies this
      ensures Valid() && fresh(repr - old(repr)) && old(repr) <= repr
      ensures Value() == Fork(old(Value()), k, Node(path, wildcardName', names', handlers', [], false, false))
    {
      var low := Below(k);
      var leaf := new TreeNode(path, wildcardName', names', handlers', false, false);
      Pair(low, leaf, low.repr + leaf.repr);
      ghost var kept := repr - {this};
      Become(s[..k], "", [], [], [low, leaf], false, low.repr + leaf.repr);
      assert repr == {this} + ({low} + kept + leaf.repr);
    }

    /** Make this node end at `path`, over what is left of its label. */
    method ShortenTo(path: string, wildcardName': string, names': seq<string>, handlers': seq<Handler>)
      requires Valid() && path <= s
      modifies this
      ensures Valid() && fresh(repr - old(repr)) && old(repr) <= repr
      ensures Value() == Node(path, wildcardName', names', handlers', [Lower(old(Value()), |path|)], old(root), false)
    {
      var low := Below(|path|);
      Single(low);
      Become(path, wildcardName', names', handlers', [low], false, low.repr);
    }

    /** Merge a path with the same start into this node. */
    method MergePath(path: string, wildcardName': string, names': seq<string>, handlers': seq<Handler>)
        returns (duplicate: bool)
      requires Valid()
      modifies repr
      ensures Valid() && fresh(repr - old(repr)) && old(repr) <= repr
      ensures NodeResult(Value(), duplicate) == MergeNode(old(Value()), path, wildcardName', names', handlers')
      decreases repr, 1
    {
      var k := MatchLength(s, path);
      if k < |s| && k < |path| {
        ForkAt(k, path[k..], wildcardName', names', handlers');
        duplicate := false;
      } else if |path| < |s| {
        ShortenTo(path, wildcardName', names', handlers');
        duplicate := false;
      } else if |path| > |s| {
        duplicate := MergeBelow(path[|s|..], names', handlers');
      } else if handlers' == [] {
        duplicate := false;
      } else if handlers != [] {
        duplicate := true;
      } else {
        duplicate := false;
        SetEntry(names', handlers');
      }
    }

    method MergeBelow(rest: string, names': seq<string>, handlers': seq<Handler>) returns (duplicate: bool)
      requires Valid()
      modifies repr
      ensures Valid() && fresh(repr - old(repr)) && old(repr) <= repr
      ensures var old' := old(Value());
              var below := RouteTree.AddTo(old'.children, rest, names', handlers', false);
              Value() == old'.(children := below.nodes) && duplicate == below.duplicate
      decreases repr, 0
    {
      var children', dup, below := AddNodes(children, rest, names', handlers', false, repr - {this});
      SetChildren(children', below);
      duplicate := dup;
    }
  }

  /** How many bytes two labels have in common. */
  method MatchLength(a: string, b: string) returns (k: nat)
    ensures k == CommonPrefix(a, b)
  {
    k := 0;
    while k < |a| && k < |b| && a[k] == b[k]
      invariant k <= |a| && k <= |b| && a[..k] == b[..k]
    {
      k := k + 1;
    }
    CommonPrefixIs(a, b, k);
  }

  /** Siblings that share no node, all within `r`. */
  ghost predicate ValidAll(ns: seq<TreeNode>, r: set<TreeNode>)
    reads r
    decreases r, 1
  {
    && (forall i :: 0 <= i < |ns| ==> ns[i] in r && ns[i].repr <= r && ns[i].Valid())
    && (forall i, j :: 0 <= i < j < |ns| ==> ns[i].repr !! ns[j].repr)
  }

  ghost function Values(ns: seq<TreeNode>, r: set<TreeNode>): (v: seq<Node>)
    requires ValidAll(ns, r)
    reads r
    ensures |v| == |ns| && forall i :: 0 <= i < |ns| ==> v[i] == ns[i].Value()
    decreases r, 1, |ns|
  {
    if ns == [] then [] else [ns[0].Value()] + Values(ns[1..], r)
  }

  lemma Pair(a: TreeNode, b: TreeNode, r: set<TreeNode>)
    requires a.Valid() && b.Valid() && a.repr !! b.repr && r == a.repr + b.repr
    ensures ValidAll([a, b], r) && Values([a, b], r) == [a.Value(), b.Value()]
  {
  }

  lemma Single(a: TreeNode)
    requires a.Valid()
    ensures ValidAll([a], a.repr) && Values([a], a.repr) == [a.Value()]
  {
  }

  /** A new sibling whose nodes are all new. */
  lemma Append(ns: seq<TreeNode>, r: set<TreeNode>, n: TreeNode)
    requires ValidAll(ns, r) && n.Valid() && n.repr !! r
    ensures ValidAll(ns + [n], r + n.repr)
    ensures Values(ns + [n], r + n.repr) == Values(ns, r) + [n.Value()]
  {
  }

  /** `nodes` as a sequence with one more. */
  method AppendNew(nodes: seq<TreeNode>, path: string, wildcardName: string, names: seq<string>,
                   handlers: seq<Handler>, root: bool, rootWildcard: bool, ghost r: set<TreeNode>)
      returns (nodes': seq<TreeNode>, ghost r': set<TreeNode>)
    requires ValidAll(nodes, r)
    ensures ValidAll(nodes', r') && r <= r' && fresh(r' - r)
    ensures Values(nodes', r') == Values(nodes, r) + [Node(path, wildcardName, names, handlers, [], root, rootWildcard)]
  {
    var n := new TreeNode(path, wildcardName, names, handlers, root, rootWildcard);
    Append(nodes, r, n);
    nodes', r' := nodes + [n], r + n.repr;
  }

  /** Merge a path into one sibling; the others share no node with it and stay as they are. */
  method MergeAt(nodes: seq<TreeNode>, i: nat, path: string, wildcardName: string, names: seq<string>,
                 handlers: seq<Handler>, ghost r: set<TreeNode>)
      returns (duplicate: bool, ghost r': set<TreeNode>)
    requires ValidAll(nodes, r) && i < |nodes|
    modifies r
    ensures ValidAll(nodes, r') && r <= r' && fresh(r' - r)
    ensures var m := MergeNode(old(Values(nodes, r))[i], path, wildcardName, names, handlers);
            Values(nodes, r') == old(Values(nodes, r))[i := m.node] && duplicate == m.duplicate
    decreases r, 2
  {
    var n := nodes[i];
    OthersApart(nodes, i, r);
    duplicate := n.MergePath(path, wildcardName, names, handlers);
    r' := r + n.repr;
    forall j | 0 <= j < |nodes| && j != i
      ensures nodes[j].repr == old(nodes[j].repr) && nodes[j].Valid() && nodes[j].Value() == old(nodes[j].Value())
      ensures nodes[j].repr !! n.repr
    {
      assert nodes[j] in old(nodes[j].repr) && old(nodes[j].repr) !! old(n.repr);
    }
  }

  /** A sibling shares no node with any other. */
  lemma OthersApart(nodes: seq<TreeNode>, i: nat, r: set<TreeNode>)
    requires ValidAll(nodes, r) && i < |nodes|
    ensures forall j :: 0 <= j < |nodes| && j != i ==> nodes[j].repr !! nodes[i].repr && nodes[j] in nodes[j].repr && nodes[j].repr <= r
  {
    forall j | 0 <= j < |nodes| && j != i
      ensures nodes[j].repr !! nodes[i].repr
    {
      assert if i < j then nodes[i].repr !! nodes[j].repr else nodes[j].repr !! nodes[i].repr;
    }
  }

  /** Insert one string into a list of siblings, changing nodes in place. */
  method AddNodes(nodes: seq<TreeNode>, path: string, names: seq<string>, handlers: seq<Handler>, root: bool,
               ghost r: set<TreeNode>)
      returns (nodes': seq<TreeNode>, duplicate: bool, ghost r': set<TreeNode>)
    requires ValidAll(nodes, r)
    modifies r
    ensures ValidAll(nodes', r') && r <= r' && fresh(r' - r)
    ensures AddResult(Values(nodes', r'), duplicate) == RouteTree.AddTo(old(Values(nodes, r)), path, names, handlers, root)
    decreases r, 3
  {
    duplicate := false;
    var w := IndexByte(path, '*');
    var wildcardName, short := "", path;
    if w > 0 {
      wildcardName, short := path[w + 1..], path[..w - 1] + "/";
    }
    if w > 0 && wildcardName != "" && root {
      var isRoot := short == "/";
      nodes', r' := AppendNew(nodes, if isRoot then "//" else short, wildcardName, names, handlers, root, isRoot, r);
      return;
    }
    var i := FindTarget(nodes, short, r);
    if i == |nodes| || (nodes[i].s < short && nodes[i].wildcardName != "") {
      nodes', r' := AppendNew(nodes, short, wildcardName, names, handlers, root, false, r);
    } else {
      nodes' := nodes;
      duplicate, r' := MergeAt(nodes, i, short, wildcardName, names, handlers, r);
    }
  }

  /** The first sibling the path is merged into or compared with further. */
  method FindTarget(nodes: seq<TreeNode>, path: string, ghost r: set<TreeNode>) returns (i: nat)
    requires ValidAll(nodes, r)
    ensures i == Target(Values(nodes, r), path)
  {
    ghost var v := Values(nodes, r);
    i := 0;
    while i < |nodes|
      invariant 0 <= i <= |nodes|
      invariant forall j :: 0 <= j < i ==> Skipped(v[j], path)
    {
      assert v[i] == nodes[i].Value();
      var skipped := Skips(nodes[i], path);
      if !skipped {
        TargetIs(v, path, i);
        return;
      }
      i := i + 1;
    }
    TargetIs(v, path, i);
  }

  /** The loop goes on to the next sibling. */
  method Skips(n: TreeNode, path: string) returns (skipped: bool)
    requires n.Valid()
    ensures skipped <==> Skipped(n.Value(), path)
  {
    var k := MatchLength(n.s, path);
    skipped := n.rootWildcard || (k == 0 && n.s != "" && path != "");
  }

  lemma TargetIs(ns: seq<Node>, path: string, i: nat)
    requires i <= |ns| && forall j :: 0 <= j < i ==> Skipped(ns[j], path)
    requires i < |ns| ==> !Skipped(ns[i], path)
    ensures Target(ns, path) == i
  {
  }

  // ------------------------------------------------------------------- ordering

  /** How many nodes there are in the subtrees of these siblings. */
  method CountNodes(nodes: seq<TreeNode>, ghost r: set<TreeNode>) returns (len: nat)
    requires ValidAll(nodes, r)
    ensures len == Size(Values(nodes, r))
    decreases r
  {
    ghost var v := Values(nodes, r);
    len := 0;
    var i := |nodes|;
    while i > 0
      invariant 0 <= i <= |nodes| && len == Size(v[i..])
    {
      i := i - 1;
      SizeFrom(v, i);
      assert v[i] == nodes[i].Value();
      var below := CountNodes(nodes[i].children, nodes[i].repr - {nodes[i]});
      len := len + 1 + below;
    }
    assert v[0..] == v;
  }

  lemma SizeFrom(v: seq<Node>, i: nat)
    requires i < |v|
    ensures Size(v[i..]) == 1 + Size(v[i].children) + Size(v[i + 1..])
  {
    assert v[i..][1..] == v[i + 1..];
  }

  /** What the siblings are compared by. */
  method Keys(nodes: seq<TreeNode>, ghost r: set<TreeNode>) returns (keys: seq<Key>)
    requires ValidAll(nodes, r)
    ensures |keys| == |nodes|
    ensures forall i :: 0 <= i < |nodes| ==> keys[i] == KeyOf(nodes[i].Value())
  {
    keys := [];
    for i := 0 to |nodes|
      invariant |keys| == i && forall j :: 0 <= j < i ==> keys[j] == KeyOf(nodes[j].Value())
    {
      var key := KeyAt(nodes[i]);
      keys := keys + [key];
    }
  }

  method KeyAt(n: TreeNode) returns (key: Key)
    requires n.Valid()
    ensures key == KeyOf(n.Value())
  {
    var below := CountNodes(n.children, n.repr - {n});
    key := Key(n.s == ":" || n.wildcardName != "" || n.rootWildcard, below);
  }

  ghost predicate InOrder(keys: seq<Key>, order: seq<nat>) {
    && (forall i :: 0 <= i < |order| ==> order[i] < |keys|)
    && (forall i, j :: 0 <= i < j < |order| ==> !KeyLess(keys[order[j]], keys[order[i]]))
  }

  /** Where a sorted order takes one more index. */
  lemma OrderInsert(keys: seq<Key>, order: seq<nat>, n: nat, p: nat)
    requires InOrder(keys, order) && p <= |order| && n < |keys|
    requires forall k :: 0 <= k < p ==> !KeyLess(keys[n], keys[order[k]])
    requires p < |order| ==> KeyLess(keys[n], keys[order[p]])
    ensures InOrder(keys, order[..p] + [n] + order[p..])
  {
    var w := order[..p] + [n] + order[p..];
    forall i, j | 0 <= i < j < |w|
      ensures !KeyLess(keys[w[j]], keys[w[i]])
    {
      if j == p {
        assert w[i] == order[i];
      } else if i == p {
        assert w[j] == order[j - 1] && (j - 1 > p ==> !KeyLess(keys[order[j - 1]], keys[order[p]]));
      } else {
        assert !KeyLess(keys[order[if j > p then j - 1 else j]], keys[order[if i > p then i - 1 else i]]);
      }
    }
  }

  lemma OneMore(order: seq<nat>, n: nat, p: nat)
    requires p <= |order|
    ensures multiset(order[..p] + [n] + order[p..]) == multiset(order) + multiset{n}
  {
    assert order == order[..p] + order[p..];
  }

  /** An order of the indices in which no key comes before a smaller one. */
  method SortKeys(keys: seq<Key>) returns (order: seq<nat>)
    ensures InOrder(keys, order) && multiset(order) == multiset(Rearrange.Iota(|keys|))
  {
    order := [];
    for i := 0 to |keys|
      invariant InOrder(keys, order) && multiset(order) == multiset(Rearrange.Iota(i))
    {
      var p := 0;
      while p < |order| && !KeyLess(keys[i], keys[order[p]])
        invariant p <= |order| && forall k :: 0 <= k < p ==> !KeyLess(keys[i], keys[order[k]])
      {
        p := p + 1;
      }
      OrderInsert(keys, order, i, p);
      OneMore(order, i, p);
      order := order[..p] + [i] + order[p..];
      assert Rearrange.Iota(i + 1) == Rearrange.Iota(i) + [i];
    }
  }

  /** A sorted arrangement of the siblings. */
  method SortNodes(nodes: seq<TreeNode>, ghost r: set<TreeNode>) returns (sorted: seq<TreeNode>)
    requires ValidAll(nodes, r)
    ensures ValidAll(sorted, r) && Arranged(Values(nodes, r), Values(sorted, r))
  {
    ghost var v := Values(nodes, r);
    var keys := Keys(nodes, r);
    var order := SortKeys(keys);
    ArrangedBy(v, keys, order);
    sorted := Rearrange.Pick(nodes, order);
    Picked(nodes, r, order);
    assert Values(sorted, r) == Rearrange.Pick(v, order);
  }

  lemma ArrangedBy(v: seq<Node>, keys: seq<Key>, order: seq<nat>)
    requires |keys| == |v| && forall i :: 0 <= i < |v| ==> keys[i] == KeyOf(v[i])
    requires InOrder(keys, order) && multiset(order) == multiset(Rearrange.Iota(|v|))
    ensures Arranged(v, Rearrange.Pick(v, order))
    ensures forall i, j :: 0 <= i < j < |order| ==> order[i] != order[j]
  {
    Rearrange.PickAll(v, order);
    var w := Rearrange.Pick(v, order);
    forall i, j | 0 <= i < j < |w|
      ensures !Less(w[j], w[i])
    {
      assert !KeyLess(keys[order[j]], keys[order[i]]);
      assert w[i] == v[order[i]] && w[j] == v[order[j]];
    }
  }

  /** Rearranged siblings are rearranged values. */
  lemma Picked(nodes: seq<TreeNode>, r: set<TreeNode>, order: seq<nat>)
    requires ValidAll(nodes, r)
    requires forall i :: 0 <= i < |order| ==> order[i] < |nodes|
    requires forall i, j :: 0 <= i < j < |order| ==> order[i] != order[j]
    ensures ValidAll(Rearrange.Pick(nodes, order), r)
    ensures Values(Rearrange.Pick(nodes, order), r) == Rearrange.Pick(Values(nodes, r), order)
  {
    var sorted := Rearrange.Pick(nodes, order);
    forall i, j | 0 <= i < j < |sorted|
      ensures sorted[i].repr !! sorted[j].repr
    {
      var p, q := order[i], order[j];
      assert if p < q then nodes[p].repr !! nodes[q].repr else nodes[q].repr !! nodes[p].repr;
    }
  }

  /** Sort the siblings and, below each of them, the children. */
  method Prioritize(nodes: seq<TreeNode>, ghost r: set<TreeNode>) returns (sorted: seq<TreeNode>)
    requires ValidAll(nodes, r)
    modifies r`children
    ensures ValidAll(sorted, r) && Prioritized(old(Values(nodes, r)), Values(sorted, r))
    decreases r, 3
  {
    ghost var v := Values(nodes, r);
    sorted := SortNodes(nodes, r);
    ghost var mid := Values(sorted, r);
    PrioritizeEach(sorted, r);
    LevelPrioritized(v, mid, Values(sorted, r));
  }

  lemma LevelPrioritized(v: seq<Node>, mid: seq<Node>, w: seq<Node>)
    requires Arranged(v, mid) && |mid| == |w| && forall i :: 0 <= i < |mid| ==> PrioritizedNode(mid[i], w[i])
    ensures Prioritized(v, w)
  {
    Rearrange.Same(v, mid);
  }

  method PrioritizeEach(nodes: seq<TreeNode>, ghost r: set<TreeNode>)
    requires ValidAll(nodes, r)
    modifies r`children
    ensures ValidAll(nodes, r)
    ensures forall j :: 0 <= j < |nodes| ==> PrioritizedNode(old(Values(nodes, r))[j], nodes[j].Value())
    decreases r, 2
  {
    ghost var mid := Values(nodes, r);
    var i := 0;
    while i < |nodes|
      invariant 0 <= i <= |nodes| && ValidAll(nodes, r)
      invariant forall j :: 0 <= j < i ==> PrioritizedNode(mid[j], nodes[j].Value())
      invariant forall j :: i <= j < |nodes| ==> mid[j] == nodes[j].Value()
    {
      PrioritizeAt(nodes, i, r);
      i := i + 1;
    }
  }

  method PrioritizeAt(nodes: seq<TreeNode>, i: nat, ghost r: set<TreeNode>)
    requires ValidAll(nodes, r) && i < |nodes|
    modifies nodes[i].repr`children
    ensures ValidAll(nodes, r)
    ensures PrioritizedNode(old(nodes[i].Value()), nodes[i].Value())
    ensures forall j :: 0 <= j < |nodes| && j != i ==> nodes[j].Value() == old(nodes[j].Value())
    decreases nodes[i].repr, 1
  {
    PrioritizeBelow(nodes[i]);
    forall j | 0 <= j < |nodes| && j != i
      ensures nodes[j].Valid() && nodes[j].Value() == old(nodes[j].Value())
    {
      assert if i < j then nodes[i].repr !! nodes[j].repr else nodes[j].repr !! nodes[i].repr;
    }
  }

  method PrioritizeBelow(n: TreeNode)
    requires n.Valid()
    modifies n.repr`children
    ensures n.Valid() && PrioritizedNode(old(n.Value()), n.Value())
    decreases n.repr, 0
  {
    var children' := Prioritize(n.children, n.repr - {n});
    n.Reorder(children');
  }
}
