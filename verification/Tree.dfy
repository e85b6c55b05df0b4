/** The router's radix tree as a value: what insertion, ordering and lookup compute. */
module RouteTree {
  import opened Options
  import opened Text

  /** A request handler, known only by its identity. */
  type Handler = nat

  datatype Node = Node(
    s: string,
    wildcardName: string,
    names: seq<string>,
    handlers: seq<Handler>,
    children: seq<Node>,
    root: bool,
    rootWildcard: bool)
  {
    predicate IsDynamic() {
      s == ":" || wildcardName != "" || rootWildcard
    }
  }

  // ---------------------------------------------------------------- insertion

  datatype AddResult = AddResult(nodes: seq<Node>, duplicate: bool)

  /** Insert one string at one level: a `*` path becomes a node of its own, anything else is merged in. */
  function AddTo(ns: seq<Node>, path: string, names: seq<string>, handlers: seq<Handler>, root: bool): AddResult
    decreases ns, 1
  {
    var w := IndexByte(path, '*');
    if w > 0 then
      var wildcardName, short := path[w + 1..], path[..w - 1] + "/";
      if wildcardName != "" && root then
        var isRoot := short == "/";
        AddResult(ns + [Node(if isRoot then "//" else short, wildcardName, names, handlers, [], root, isRoot)], false)
      else
        Merge(ns, short, wildcardName, names, handlers, root)
    else
      Merge(ns, path, "", names, handlers, root)
  }

  /** A sibling the merge loop steps over. */
  predicate Skipped(n: Node, path: string) {
    n.rootWildcard || (n.s != "" && path != "" && n.s[0] != path[0])
  }

  /** The first sibling not stepped over; the number of siblings when there is none. */
  function Target(ns: seq<Node>, path: string): (i: nat)
    ensures i <= |ns|
    ensures i < |ns| ==> !Skipped(ns[i], path)
    ensures forall j :: 0 <= j < i ==> Skipped(ns[j], path)
  {
    if ns == [] || !Skipped(ns[0], path) then 0
    else
      var i := Target(ns[1..], path);
      assert forall j :: 0 < j < i + 1 ==> ns[j] == ns[1..][j - 1];
      i + 1
  }

  /** The merge loop: change the target sibling, or append a new one. */
  function Merge(ns: seq<Node>, path: string, wildcardName: string, names: seq<string>,
                 handlers: seq<Handler>, root: bool): AddResult
    decreases ns, 0
  {
    var i := Target(ns, path);
    if i == |ns| || (ns[i].s < path && ns[i].wildcardName != "") then
      AddResult(ns + [Node(path, wildcardName, names, handlers, [], root, false)], false)
    else
      var r := MergeNode(ns[i], path, wildcardName, names, handlers);
      AddResult(ns[i := r.node], r.duplicate)
  }

  datatype NodeResult = NodeResult(node: Node, duplicate: bool)

  /** What inserting `path` makes of a node whose label shares its first byte. */
  function MergeNode(n: Node, path: string, wildcardName: string, names: seq<string>,
                     handlers: seq<Handler>): NodeResult
    decreases n
  {
    var k := CommonPrefix(n.s, path);
    if k < |n.s| && k < |path| then
      NodeResult(Fork(n, k, Node(path[k..], wildcardName, names, handlers, [], false, false)), false)
    else if |path| < |n.s| then
      NodeResult(Node(path, wildcardName, names, handlers, [Lower(n, |path|)], n.root, false), false)
    else if |path| > |n.s| then
      var r := AddTo(n.children, path[|n.s|..], names, handlers, false);
      NodeResult(n.(children := r.nodes), r.duplicate)
    else if handlers == [] then
      NodeResult(n, false)
    else if n.handlers != [] then
      NodeResult(n, true)
    else
      NodeResult(n.(names := names, handlers := handlers), false)
  }

  /** What is left of `n` when its first `k` bytes move to a new parent. */
  function Lower(n: Node, k: nat): Node
    requires k <= |n.s|
  {
    Node(n.s[k..], n.wildcardName, n.names, n.handlers, n.children, false, false)
  }

  /** A node for the first `k` bytes of `n`, over the rest of `n` and a new leaf. */
  function Fork(n: Node, k: nat, leaf: Node): Node
    requires k <= |n.s|
  {
    Node(n.s[..k], "", [], [], [Lower(n, k), leaf], n.root, false)
  }

  // ------------------------------------------------------- the table it stands for

  datatype Entry = Entry(names: seq<string>, handlers: seq<Handler>)

  /** The first sibling whose label starts `key`, or -1. */
  function Match(ns: seq<Node>, key: string): (i: int)
    ensures -1 <= i < |ns|
    ensures i >= 0 ==> ns[i].s <= key
    ensures forall j :: 0 <= j < (if i < 0 then |ns| else i) ==> !(ns[j].s <= key)
  {
    if ns == [] then -1
    else if ns[0].s <= key then 0
    else
      var i := Match(ns[1..], key);
      assert forall j :: 0 < j < |ns| ==> ns[j] == ns[1..][j - 1];
      if i < 0 then -1 else i + 1
  }

  /** The entry whose labels, joined from the root, spell exactly `key`. */
  function Get(ns: seq<Node>, key: string): Option<Entry>
    decreases ns
  {
    var i := Match(ns, key);
    if i < 0 then None else GetNode(ns[i], key)
  }

  function GetNode(n: Node, key: string): Option<Entry>
    decreases n
  {
    if !(n.s <= key) then None
    else if |key| > |n.s| then Get(n.children, key[|n.s|..])
    else if n.handlers == [] then None
    else Some(Entry(n.names, n.handlers))
  }

  /** `key` ends where a node ends. */
  predicate Reach(ns: seq<Node>, key: string)
    decreases ns
  {
    key == "" ||
    var i := Match(ns, key);
    i >= 0 && ReachNode(ns[i], key)
  }

  predicate ReachNode(n: Node, key: string)
    decreases n
  {
    n.s <= key && Reach(n.children, key[|n.s|..])
  }

  // ------------------------------------------------------------------- shape

  /** A label is one `:` or has none. */
  predicate ColonLabel(s: string) {
    s != "" && (s == ":" || ':' !in s)
  }

  ghost predicate NodeShape(n: Node, root: bool)
    decreases n
  {
    ColonLabel(n.s) && n.wildcardName == "" && !n.rootWildcard && n.root == root && Shape(n.children, false)
  }

  /** Labels are non-empty, `:` stands alone, siblings start with different bytes, no wildcards. */
  ghost predicate Shape(ns: seq<Node>, root: bool)
    decreases ns
  {
    Level(ns) && forall i :: 0 <= i < |ns| ==> NodeShape(ns[i], root)
  }

  /** One level of siblings: labels are non-empty and start with different bytes. */
  ghost predicate Level(ns: seq<Node>) {
    && (forall i :: 0 <= i < |ns| ==> ns[i].s != "" && !ns[i].rootWildcard && ns[i].wildcardName == "")
    && (forall i, j :: 0 <= i < j < |ns| ==> ns[i].s[0] != ns[j].s[0])
  }

  /** Every `:` of `path` has node boundaries on both sides. */
  ghost predicate Ready(ns: seq<Node>, path: string) {
    forall j :: 0 <= j < |path| && path[j] == ':' ==>
      Reach(ns, path[..j]) && (j + 1 < |path| ==> Reach(ns, path[..j + 1]))
  }

  // ---------------------------------------------- one level, one candidate sibling

  /** Only the sibling with the first byte of `key` counts. */
  lemma Only(ns: seq<Node>, key: string, i: nat)
    requires Level(ns) && key != ""
    requires i < |ns| && ns[i].s[0] == key[0]
    ensures Target(ns, key) == i
    ensures Get(ns, key) == GetNode(ns[i], key)
    ensures Reach(ns, key) == ReachNode(ns[i], key)
  {
    assert forall j :: 0 <= j < |ns| && j != i ==> Skipped(ns[j], key) && !(ns[j].s <= key);
    assert !Skipped(ns[i], key);
  }

  lemma Nobody(ns: seq<Node>, key: string)
    requires Level(ns)
    requires key != "" ==> forall i :: 0 <= i < |ns| ==> ns[i].s[0] != key[0]
    ensures key != "" ==> Target(ns, key) == |ns|
    ensures Get(ns, key) == None
    ensures Reach(ns, key) == (key == "")
  {
    assert forall j :: 0 <= j < |ns| ==> !(ns[j].s <= key);
  }

  /** Inserting in a level of its own kind changes one sibling or adds one. */
  lemma MergeLevel(ns: seq<Node>, path: string, names: seq<string>, handlers: seq<Handler>, root: bool)
    requires Level(ns) && path != ""
    ensures Level(Merge(ns, path, "", names, handlers, root).nodes)
    ensures var i := Target(ns, path);
            var r := Merge(ns, path, "", names, handlers, root);
            if i == |ns| then r == AddResult(ns + [Node(path, "", names, handlers, [], root, false)], false)
            else r == AddResult(ns[i := MergeNode(ns[i], path, "", names, handlers).node],
                                MergeNode(ns[i], path, "", names, handlers).duplicate)
                 && ns[i].s[0] == path[0] && r.nodes[i].s[0] == path[0]
  {
    var i := Target(ns, path);
    if i < |ns| {
      assert !Skipped(ns[i], path);
    } else {
      assert forall j :: 0 <= j < |ns| ==> Skipped(ns[j], path);
    }
  }

  /** The sibling `key` belongs to, before and after a change of its level; -1 when there is none. */
  lemma Sibling(ns: seq<Node>, r: seq<Node>, key: string) returns (j: int)
    requires Level(ns) && Level(r) && |ns| <= |r|
    requires forall j :: 0 <= j < |ns| ==> r[j].s[0] == ns[j].s[0]
    ensures -1 <= j < |r|
    ensures j >= 0 ==> key != "" && r[j].s[0] == key[0] && Get(r, key) == GetNode(r[j], key) && Reach(r, key) == ReachNode(r[j], key)
    ensures 0 <= j < |ns| ==> Get(ns, key) == GetNode(ns[j], key) && Reach(ns, key) == ReachNode(ns[j], key)
    ensures j >= |ns| ==> Get(ns, key) == None && !Reach(ns, key)
    ensures j < 0 ==> Get(r, key) == Get(ns, key) == None && Reach(r, key) == Reach(ns, key) == (key == "")
    ensures j < 0 && key != "" ==> forall i :: 0 <= i < |r| ==> r[i].s[0] != key[0]
  {
    if key != "" && exists i :: 0 <= i < |r| && r[i].s[0] == key[0] {
      j :| 0 <= j < |r| && r[j].s[0] == key[0];
      Only(r, key, j);
      if j < |ns| {
        Only(ns, key, j);
      } else {
        Nobody(ns, key);
      }
    } else {
      j := -1;
      Nobody(r, key);
      Nobody(ns, key);
    }
  }

  // ------------------------------------------------ what insertion does to the table

  /** Moving the first `k` bytes of a label to a parent changes nothing below. */
  lemma LowerSame(n: Node, k: nat, key: string)
    requires k <= |n.s| && n.s[..k] <= key
    ensures GetNode(Lower(n, k), key[k..]) == GetNode(n, key)
    ensures ReachNode(Lower(n, k), key[k..]) == ReachNode(n, key)
  {
    var p, s, rest := n.s[..k], n.s[k..], key[k..];
    assert n.s == p + s && key == p + rest;
    PrefixShift(p, s, rest);
    if n.s <= key {
      assert rest[|s|..] == key[|n.s|..];
    }
  }

  /** The two children of a fork. */
  lemma ForkParts(n: Node, k: nat, leaf: Node, key: string)
    requires 0 < k < |n.s| && leaf.s != "" && leaf.s[0] != n.s[k]
    requires !leaf.rootWildcard && leaf.wildcardName == "" && !n.rootWildcard && n.wildcardName == ""
    ensures var f := Fork(n, k, leaf);
            if !(n.s[..k] <= key) then GetNode(f, key) == None == GetNode(n, key) && !ReachNode(f, key) && !ReachNode(n, key)
            else if |key| == k then GetNode(f, key) == None == GetNode(n, key) && ReachNode(f, key) && !ReachNode(n, key)
            else if key[k] == leaf.s[0] then
              GetNode(f, key) == GetNode(leaf, key[k..]) && GetNode(n, key) == None
              && ReachNode(f, key) == ReachNode(leaf, key[k..]) && !ReachNode(n, key)
            else GetNode(f, key) == GetNode(n, key) && ReachNode(f, key) == ReachNode(n, key)
  {
    var f := Fork(n, k, leaf);
    assert Level(f.children);
    if n.s[..k] <= key && |key| > k {
      var rest := key[k..];
      if rest[0] == leaf.s[0] {
        Only(f.children, rest, 1);
      } else if rest[0] == n.s[k] {
        Only(f.children, rest, 0);
        LowerSame(n, k, key);
      } else {
        Nobody(f.children, rest);
      }
    }
  }

  /** Without a `*` nothing but merging happens. */
  lemma AddToPlain(ns: seq<Node>, path: string, names: seq<string>, handlers: seq<Handler>, root: bool)
    requires '*' !in path
    ensures AddTo(ns, path, names, handlers, root) == Merge(ns, path, "", names, handlers, root)
  {
  }

  /** Only an insertion with handlers can meet a taken entry. */
  lemma {:induction false} NoHandlersNoError(ns: seq<Node>, path: string, names: seq<string>, root: bool)
    ensures !AddTo(ns, path, names, [], root).duplicate
    decreases ns, 1
  {
    var w := IndexByte(path, '*');
    var short := if w > 0 then path[..w - 1] + "/" else path;
    NoHandlersNoMerge(ns, short, if w > 0 then path[w + 1..] else "", names, root);
  }

  lemma {:induction false} NoHandlersNoMerge(ns: seq<Node>, path: string, wildcardName: string, names: seq<string>, root: bool)
    ensures !Merge(ns, path, wildcardName, names, [], root).duplicate
    decreases ns, 0
  {
    var i := Target(ns, path);
    if i < |ns| && |path| > |ns[i].s| {
      NoHandlersNoError(ns[i].children, path[|ns[i].s|..], names, false);
    }
  }

  /** Insertion adds its own entry when that is free, and keeps every other one. */
  lemma {:induction false} GetAfterMerge(ns: seq<Node>, root: bool, path: string, names: seq<string>,
                                         handlers: seq<Handler>, key: string)
    requires Shape(ns, root) && path != "" && '*' !in path
    ensures var r := Merge(ns, path, "", names, handlers, root);
            && r.duplicate == (handlers != [] && Get(ns, path).Some?)
            && Get(r.nodes, key) == if key == path && handlers != [] && Get(ns, path).None?
                                    then Some(Entry(names, handlers)) else Get(ns, key)
    decreases ns, 0
  {
    MergeLevel(ns, path, names, handlers, root);
    var i, r := Target(ns, path), Merge(ns, path, "", names, handlers, root);
    if i == |ns| {
      Nobody(ns, path);
    } else {
      Only(ns, path, i);
      GetAfterMergeNode(ns[i], root, path, names, handlers, key);
    }
    assert forall j :: 0 <= j < |ns| ==> r.nodes[j].s[0] == ns[j].s[0];
    assert r.nodes[i].s[0] == path[0];
    var j := Sibling(ns, r.nodes, key);
  }

  lemma {:induction false} GetAfterMergeNode(n: Node, root: bool, path: string, names: seq<string>,
                                             handlers: seq<Handler>, key: string)
    requires NodeShape(n, root) && path != "" && '*' !in path && n.s[0] == path[0]
    ensures var r := MergeNode(n, path, "", names, handlers);
            && r.duplicate == (handlers != [] && GetNode(n, path).Some?)
            && GetNode(r.node, key) == if key == path && handlers != [] && GetNode(n, path).None?
                                       then Some(Entry(names, handlers)) else GetNode(n, key)
    decreases n
  {
    var k := CommonPrefix(n.s, path);
    if k < |n.s| && k < |path| {
      GetAfterFork(n, root, path, names, handlers, key);
    } else if |path| < |n.s| {
      GetAfterShorten(n, path, names, handlers, key);
    } else if |path| > |n.s| {
      var rest := path[|n.s|..];
      assert path == n.s + rest;
      AddToPlain(n.children, rest, names, handlers, false);
      GetAfterMerge(n.children, false, rest, names, handlers, if n.s < key then key[|n.s|..] else rest);
      GetThrough(n, path, MergeNode(n, path, "", names, handlers).node, names, handlers, key);
    }
  }

  /** What a node's children gain, the node gains. */
  lemma GetThrough(n: Node, path: string, r: Node, names: seq<string>, handlers: seq<Handler>, key: string)
    requires n.s < path && r == n.(children := r.children)
    requires n.s < key ==> var rest, k := path[|n.s|..], key[|n.s|..];
               Get(r.children, k) == if k == rest && handlers != [] && Get(n.children, rest).None?
                                     then Some(Entry(names, handlers)) else Get(n.children, k)
    ensures GetNode(r, key) == if key == path && handlers != [] && GetNode(n, path).None?
                               then Some(Entry(names, handlers)) else GetNode(n, key)
  {
    assert path == n.s + path[|n.s|..];
    if n.s < key {
      assert key == n.s + key[|n.s|..];
    }
  }

  lemma GetAfterFork(n: Node, root: bool, path: string, names: seq<string>, handlers: seq<Handler>, key: string)
    requires NodeShape(n, root) && 0 < CommonPrefix(n.s, path) < |n.s| && CommonPrefix(n.s, path) < |path|
    ensures var r := MergeNode(n, path, "", names, handlers);
            && GetNode(n, path) == None
            && GetNode(r.node, key) == if key == path && handlers != [] then Some(Entry(names, handlers)) else GetNode(n, key)
  {
    var k := CommonPrefix(n.s, path);
    var leaf := Node(path[k..], "", names, handlers, [], false, false);
    ForkParts(n, k, leaf, key);
    assert path == path[..k] + path[k..];
    if n.s[..k] <= key {
      assert key == n.s[..k] + key[k..];
    }
  }

  lemma GetAfterShorten(n: Node, path: string, names: seq<string>, handlers: seq<Handler>, key: string)
    requires n.s != "" && path != "" && path < n.s && !n.rootWildcard && n.wildcardName == ""
    ensures var r := MergeNode(n, path, "", names, handlers);
            && GetNode(n, path) == None
            && GetNode(r.node, key) == if key == path && handlers != [] then Some(Entry(names, handlers)) else GetNode(n, key)
  {
    var low := [Lower(n, |path|)];
    assert CommonPrefix(n.s, path) == |path| by {
      var k := CommonPrefix(n.s, path);
      assert n.s[..|path|] == path;
    }
    if path < key {
      LowerSame(n, |path|, key);
      if key[|path|] == n.s[|path|] {
        Only(low, key[|path|..], 0);
      } else {
        Nobody(low, key[|path|..]);
      }
    }
  }

  // ------------------------------------------- what insertion does to the boundaries

  /** Node boundaries stay, and the new ones all lie along the inserted path. */
  lemma {:induction false} ReachAfterMerge(ns: seq<Node>, root: bool, path: string, names: seq<string>,
                                           handlers: seq<Handler>, key: string)
    requires Shape(ns, root) && path != "" && '*' !in path
    ensures var r := Merge(ns, path, "", names, handlers, root).nodes;
            && (Reach(ns, key) ==> Reach(r, key))
            && (Reach(r, key) ==> Reach(ns, key) || key <= path)
            && (key == path ==> Reach(r, key))
    decreases ns, 0
  {
    MergeLevel(ns, path, names, handlers, root);
    var i, r := Target(ns, path), Merge(ns, path, "", names, handlers, root).nodes;
    if i < |ns| {
      ReachAfterMergeNode(ns[i], root, path, names, handlers, key);
    }
    assert forall j :: 0 <= j < |ns| ==> r[j].s[0] == ns[j].s[0];
    assert r[i].s[0] == path[0];
    var j := Sibling(ns, r, key);
  }

  lemma {:induction false} ReachAfterMergeNode(n: Node, root: bool, path: string, names: seq<string>,
                                               handlers: seq<Handler>, key: string)
    requires NodeShape(n, root) && path != "" && '*' !in path && n.s[0] == path[0]
    ensures var r := MergeNode(n, path, "", names, handlers).node;
            && (ReachNode(n, key) ==> ReachNode(r, key))
            && (ReachNode(r, key) ==> ReachNode(n, key) || key <= path)
            && (key == path ==> ReachNode(r, key))
    decreases n
  {
    var k := CommonPrefix(n.s, path);
    if k < |n.s| && k < |path| {
      ReachAfterFork(n, root, path, names, handlers, key);
    } else if |path| < |n.s| {
      ReachAfterShorten(n, path, names, handlers, key);
    } else if |path| > |n.s| {
      var rest := path[|n.s|..];
      assert path == n.s + rest;
      AddToPlain(n.children, rest, names, handlers, false);
      if n.s <= key {
        assert key == n.s + key[|n.s|..];
        ReachAfterMerge(n.children, false, rest, names, handlers, key[|n.s|..]);
        PrefixShift(n.s, key[|n.s|..], rest);
      }
    }
  }

  lemma ReachAfterFork(n: Node, root: bool, path: string, names: seq<string>, handlers: seq<Handler>, key: string)
    requires NodeShape(n, root) && 0 < CommonPrefix(n.s, path) < |n.s| && CommonPrefix(n.s, path) < |path|
    ensures var r := MergeNode(n, path, "", names, handlers).node;
            && (ReachNode(n, key) ==> ReachNode(r, key))
            && (ReachNode(r, key) ==> ReachNode(n, key) || key <= path)
            && (key == path ==> ReachNode(r, key))
  {
    var k := CommonPrefix(n.s, path);
    var leaf := Node(path[k..], "", names, handlers, [], false, false);
    ForkParts(n, k, leaf, key);
    assert path == path[..k] + path[k..];
    if n.s[..k] <= key {
      assert key == n.s[..k] + key[k..];
    }
  }

  lemma ReachAfterShorten(n: Node, path: string, names: seq<string>, handlers: seq<Handler>, key: string)
    requires n.s != "" && path != "" && path < n.s && !n.rootWildcard && n.wildcardName == ""
    ensures var r := MergeNode(n, path, "", names, handlers).node;
            && (ReachNode(n, key) ==> ReachNode(r, key))
            && (ReachNode(r, key) ==> ReachNode(n, key) || key <= path)
            && (key == path ==> ReachNode(r, key))
  {
    var low := [Lower(n, |path|)];
    assert CommonPrefix(n.s, path) == |path| by {
      var k := CommonPrefix(n.s, path);
      assert n.s[..|path|] == path;
    }
    if path < key {
      LowerSame(n, |path|, key);
      if key[|path|] == n.s[|path|] {
        Only(low, key[|path|..], 0);
      } else {
        Nobody(low, key[|path|..]);
      }
    }
  }

  /** A new boundary other than the path's own end stands where the path parts from an old one. */
  lemma {:induction false} ReachNew(ns: seq<Node>, root: bool, path: string, names: seq<string>,
                                    handlers: seq<Handler>, key: string) returns (w: string)
    requires Shape(ns, root) && path != "" && '*' !in path && key != path
    requires Reach(Merge(ns, path, "", names, handlers, root).nodes, key) && !Reach(ns, key)
    ensures Reach(ns, w) && PartAt(w, path, key)
    decreases ns, 0
  {
    MergeLevel(ns, path, names, handlers, root);
    var i, r := Target(ns, path), Merge(ns, path, "", names, handlers, root).nodes;
    assert forall j :: 0 <= j < |ns| ==> r[j].s[0] == ns[j].s[0];
    assert r[i].s[0] == path[0];
    var j := Sibling(ns, r, key);
    assert j == i;
    if i == |ns| {
      LeafOnly(path, names, handlers, root, key);
    } else {
      w := ReachNewNode(ns[i], root, path, names, handlers, key);
      Only(ns, w, i);
    }
  }

  lemma LeafOnly(path: string, names: seq<string>, handlers: seq<Handler>, root: bool, key: string)
    requires key != path
    ensures !ReachNode(Node(path, "", names, handlers, [], root, false), key)
  {
    if path < key {
      assert key[|path|..] != "";
    }
  }

  lemma {:induction false} ReachNewNode(n: Node, root: bool, path: string, names: seq<string>,
                                        handlers: seq<Handler>, key: string) returns (w: string)
    requires NodeShape(n, root) && path != "" && '*' !in path && n.s[0] == path[0] && key != path && key != ""
    requires ReachNode(MergeNode(n, path, "", names, handlers).node, key) && !ReachNode(n, key)
    ensures w != "" && w[0] == n.s[0] && ReachNode(n, w) && PartAt(w, path, key)
    decreases n
  {
    var k := CommonPrefix(n.s, path);
    if k < |n.s| && k < |path| {
      w := n.s;
      ReachNewFork(n, root, path, names, handlers, key);
    } else if |path| < |n.s| {
      ReachNewShorten(n, path, names, handlers, key);
    } else if |path| > |n.s| {
      var rest := path[|n.s|..];
      assert path == n.s + rest && key == n.s + key[|n.s|..];
      AddToPlain(n.children, rest, names, handlers, false);
      var below := ReachNew(n.children, false, rest, names, handlers, key[|n.s|..]);
      w := n.s + below;
      assert w[|n.s|..] == below;
      PartBehind(n.s, below, rest, key[|n.s|..]);
    }
  }

  lemma ReachNewFork(n: Node, root: bool, path: string, names: seq<string>, handlers: seq<Handler>, key: string)
    requires NodeShape(n, root) && 0 < CommonPrefix(n.s, path) < |n.s| && CommonPrefix(n.s, path) < |path| && key != path
    requires ReachNode(MergeNode(n, path, "", names, handlers).node, key) && !ReachNode(n, key)
    ensures ReachNode(n, n.s) && PartAt(n.s, path, key)
  {
    var k := CommonPrefix(n.s, path);
    var leaf := Node(path[k..], "", names, handlers, [], false, false);
    ForkParts(n, k, leaf, key);
    assert key == n.s[..k] + key[k..] && path == path[..k] + path[k..];
    LeafOnly(path[k..], names, handlers, false, key[k..]);
  }

  lemma ReachNewShorten(n: Node, path: string, names: seq<string>, handlers: seq<Handler>, key: string)
    requires n.s != "" && path != "" && path < n.s && !n.rootWildcard && n.wildcardName == "" && key != path
    ensures ReachNode(MergeNode(n, path, "", names, handlers).node, key) == ReachNode(n, key)
  {
    ReachAfterShorten(n, path, names, handlers, key);
    var low := [Lower(n, |path|)];
    assert CommonPrefix(n.s, path) == |path| by {
      var k := CommonPrefix(n.s, path);
      assert n.s[..|path|] == path;
    }
    if path < key {
      LowerSame(n, |path|, key);
      if key[|path|] == n.s[|path|] {
        Only(low, key[|path|..], 0);
      } else {
        Nobody(low, key[|path|..]);
      }
    }
  }

  /** Inserting what is there already changes nothing. */
  lemma {:induction false} MergeKnown(ns: seq<Node>, root: bool, path: string, names: seq<string>, handlers: seq<Handler>)
    requires Shape(ns, root) && path != "" && '*' !in path
    requires Reach(ns, path) && (handlers == [] || Get(ns, path).Some?)
    ensures Merge(ns, path, "", names, handlers, root) == AddResult(ns, handlers != [])
    decreases ns
  {
    var i := Target(ns, path);
    if i == |ns| || ns[i].s[0] != path[0] {
      Nobody(ns, path);
    } else {
      var n := ns[i];
      Only(ns, path, i);
      MergeLevel(ns, path, names, handlers, root);
      assert CommonPrefix(n.s, path) == |n.s|;
      if |path| > |n.s| {
        var rest := path[|n.s|..];
        MergeKnown(n.children, false, rest, names, handlers);
        AddToPlain(n.children, rest, names, handlers, false);
        assert n.(children := n.children) == n;
      }
      assert ns[i := n] == ns;
    }
  }

  // ---------------------------------------------------- what insertion does to the shape

  /** The part of a path below a node is ready when the path is. */
  lemma ReadyBelow(ns: seq<Node>, root: bool, path: string, i: nat)
    requires Shape(ns, root) && Ready(ns, path)
    requires i < |ns| && ns[i].s < path
    ensures Ready(ns[i].children, path[|ns[i].s|..])
  {
    var rest := path[|ns[i].s|..];
    forall j | 0 <= j < |rest| && rest[j] == ':'
      ensures Reach(ns[i].children, rest[..j]) && (j + 1 < |rest| ==> Reach(ns[i].children, rest[..j + 1]))
    {
      ColonBelow(ns, path, i, |ns[i].s| + j);
    }
  }

  lemma ColonBelow(ns: seq<Node>, path: string, i: nat, at: nat)
    requires Level(ns) && Ready(ns, path) && i < |ns| && ns[i].s < path && |ns[i].s| <= at < |path| && path[at] == ':'
    ensures var rest, j := path[|ns[i].s|..], at - |ns[i].s|;
            Reach(ns[i].children, rest[..j]) && (j + 1 < |rest| ==> Reach(ns[i].children, rest[..j + 1]))
  {
    BoundaryBelow(ns, path, i, at);
    if at + 1 < |path| {
      BoundaryBelow(ns, path, i, at + 1);
    }
  }

  /** A boundary along a path through a sibling is one below it. */
  lemma BoundaryBelow(ns: seq<Node>, path: string, i: nat, at: nat)
    requires Level(ns) && i < |ns| && ns[i].s < path && |ns[i].s| <= at <= |path| && Reach(ns, path[..at])
    ensures Reach(ns[i].children, path[|ns[i].s|..][..at - |ns[i].s|])
  {
    var s := ns[i].s;
    assert path[..at][|s|..] == path[|s|..][..at - |s|];
    Only(ns, path[..at], i);
  }

  /** No part of a path that starts like no sibling is a boundary. */
  lemma OffTree(ns: seq<Node>, path: string, j: nat)
    requires Level(ns) && 0 < j <= |path| && Target(ns, path) == |ns|
    ensures !Reach(ns, path[..j])
  {
    assert forall i :: 0 <= i < |ns| ==> Skipped(ns[i], path);
    Nobody(ns, path[..j]);
  }

  /** A path that leaves the tree inside or beside a label has no `:` from there on, or is one `:`. */
  lemma ReadyTail(ns: seq<Node>, root: bool, path: string)
    requires Shape(ns, root) && path != "" && Ready(ns, path)
    ensures Target(ns, path) == |ns| ==> ColonLabel(path)
    ensures var i := Target(ns, path);
            i < |ns| ==> var k := CommonPrefix(ns[i].s, path); 0 < k && (k < |ns[i].s| && k < |path| ==> ':' !in path[k..])
  {
    var i := Target(ns, path);
    forall j | 0 <= j < |path| && path[j] == ':'
      ensures i == |ns| ==> path == ":"
      ensures i < |ns| && CommonPrefix(ns[i].s, path) < |ns[i].s| ==> j < CommonPrefix(ns[i].s, path)
    {
      if i == |ns| {
        OffTree(ns, path, if j > 0 then j else 1);
      } else if j > 0 {
        Only(ns, path[..j], i);
      }
    }
  }

  /** Insertion of a ready path keeps the shape. */
  lemma {:induction false} ShapeAfterMerge(ns: seq<Node>, root: bool, path: string, names: seq<string>, handlers: seq<Handler>)
    requires Shape(ns, root) && path != "" && '*' !in path && Ready(ns, path)
    ensures Shape(Merge(ns, path, "", names, handlers, root).nodes, root)
    decreases ns
  {
    MergeLevel(ns, path, names, handlers, root);
    ReadyTail(ns, root, path);
    var i := Target(ns, path);
    if i < |ns| {
      if |path| > |ns[i].s| && CommonPrefix(ns[i].s, path) == |ns[i].s| {
        ReadyBelow(ns, root, path, i);
        ShapeAfterMerge(ns[i].children, false, path[|ns[i].s|..], names, handlers);
      }
      NodeShapeAfterMerge(ns[i], root, path, names, handlers);
    }
  }

  /** The step at one node keeps its shape, when the step below it does. */
  lemma NodeShapeAfterMerge(n: Node, root: bool, path: string, names: seq<string>, handlers: seq<Handler>)
    requires NodeShape(n, root) && '*' !in path && 0 < CommonPrefix(n.s, path)
    requires var k := CommonPrefix(n.s, path); k < |n.s| && k < |path| ==> ':' !in path[k..]
    requires |path| > |n.s| && CommonPrefix(n.s, path) == |n.s| ==>
               Shape(Merge(n.children, path[|n.s|..], "", names, handlers, false).nodes, false)
    ensures NodeShape(MergeNode(n, path, "", names, handlers).node, root)
  {
    var k := CommonPrefix(n.s, path);
    if k < |n.s| && k < |path| {
      assert NodeShape(Lower(n, k), false) && NodeShape(Node(path[k..], "", names, handlers, [], false, false), false);
    } else if |path| < |n.s| {
      assert NodeShape(Lower(n, |path|), false);
    } else if |path| > |n.s| {
      AddToPlain(n.children, path[|n.s|..], names, handlers, false);
    }
  }
}
