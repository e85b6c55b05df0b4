/** What lookup answers, for any table of patterns: the first entry that spells the path and has nothing in its way. */
module RouteExact {
  import opened Text
  import opened Patterns
  import opened RouteTree
  import opened RouteInsert
  import opened RouteOrder
  import opened RouteFind
  import opened RouteTable

  // ---------------------------------------------------- the boundaries are those of the patterns

  /** Where two registered patterns part, a node ends. */
  lemma {:induction false} BranchReach(ns: seq<Node>, root: bool, a: string, b: string, j: nat)
    requires Shape(ns, root) && Reach(ns, a) && Reach(ns, b)
    requires j < |a| && j < |b| && a[..j] == b[..j] && a[j] != b[j]
    ensures Reach(ns, a[..j])
    decreases ns
  {
    if j > 0 {
      var i := Match(ns, a);
      var n := ns[i];
      assert NodeShape(n, root);
      Only(ns, a, i);
      assert a[0] == a[..j][0] == b[..j][0] == b[0];
      Only(ns, b, i);
      SharedLabel(n.s, a, b, j);
      BranchReach(n.children, false, a[|n.s|..], b[|n.s|..], j - |n.s|);
      ReachBelow(ns, root, i, a[|n.s|..][..j - |n.s|]);
    }
  }

  /** A label that starts two strings is no longer than what they share. */
  lemma SharedLabel(s: string, a: string, b: string, j: nat)
    requires s <= a && s <= b && j < |a| && j < |b| && a[..j] == b[..j] && a[j] != b[j]
    ensures |s| <= j
    ensures a[|s|..][..j - |s|] == b[|s|..][..j - |s|]
    ensures s + a[|s|..][..j - |s|] == a[..j]
  {
    assert forall q :: 0 <= q < |s| ==> s[q] == a[q] && s[q] == b[q];
    assert a[|s|..][..j - |s|] == a[..j][|s|..] && b[|s|..][..j - |s|] == b[..j][|s|..];
  }

  /** Below `u` the tree has the boundaries of the patterns. */
  ghost predicate Below(ns: seq<Node>, patterns: set<string>, u: string) {
    forall x :: Reach(ns, x) == Boundary(patterns, u + x)
  }

  /** Nodes end exactly at the boundaries of the patterns. */
  lemma ReachBoundary(ns: seq<Node>, patterns: set<string>, u: string)
    requires Shape(ns, true) && Bounds(ns, patterns)
    ensures Reach(ns, u) == Boundary(patterns, u)
  {
    if u != "" && Boundary(patterns, u) {
      if p :| p in patterns && EndsAt(p, u) {
        if u != p {
          var j :| 0 <= j < |p| && p[j] == ':' && (u == p[..j] || u == p[..j + 1]);
          ReachColons(ns, true, p, j);
        }
      } else {
        var p, q :| p in patterns && q in patterns && PartAt(p, q, u);
        assert p[..|u|] == u && q[..|u|] == u;
        BranchReach(ns, true, p, q, |u|);
      }
    }
  }

  lemma BelowRoot(ns: seq<Node>, patterns: set<string>)
    requires Shape(ns, true) && Bounds(ns, patterns)
    ensures Below(ns, patterns, "")
  {
    forall x
      ensures Reach(ns, x) == Boundary(patterns, "" + x)
    {
      assert "" + x == x;
      ReachBoundary(ns, patterns, x);
    }
  }

  lemma BelowNode(ns: seq<Node>, root: bool, patterns: set<string>, u: string, i: nat)
    requires Shape(ns, root) && Below(ns, patterns, u) && i < |ns|
    ensures Below(ns[i].children, patterns, u + ns[i].s)
  {
    forall x
      ensures Reach(ns[i].children, x) == Boundary(patterns, u + ns[i].s + x)
    {
      ReachBelow(ns, root, i, x);
      Assoc(u, ns[i].s, x);
    }
  }

  // --------------------------------------------------------- what stands in a pattern's way

  /** `path` read on from the boundary `u` meets the next boundary behind its first `n` bytes. */
  ghost predicate NextAt(patterns: set<string>, u: string, path: string, n: nat) {
    0 < n <= |path| && Boundary(patterns, u + path[..n]) && forall m :: 0 < m < n ==> !Boundary(patterns, u + path[..m])
  }

  /** The parameter behind `u` is not tried for `path`: the literal text that is tried first takes all of the path,
      or takes it up to a `/`. */
  ghost predicate Blocked(patterns: set<string>, u: string, path: string) {
    path != "" && path[0] != ':' && exists n :: NextAt(patterns, u, path, n) && (n == |path| || path[n - 1] == '/')
  }

  /** Reading `path` along `key` from `u` on, no parameter is blocked. */
  ghost predicate Free(patterns: set<string>, u: string, key: string, path: string)
    decreases |key|
  {
    key == "" ||
    if key[0] == ':' then
      !Blocked(patterns, u, path) && Free(patterns, u + ":", key[1..], path[Upto(path, '/')..])
    else
      path != "" && path[0] == key[0] && Free(patterns, u + [key[0]], key[1..], path[1..])
  }

  lemma {:induction false} FreeLiteral(patterns: set<string>, u: string, s: string, rest: string, path: string)
    requires ':' !in s
    ensures Free(patterns, u, s + rest, path) == (s <= path && Free(patterns, u + s, rest, path[|s|..]))
    decreases |s|
  {
    if s == "" {
      assert s + rest == rest && u + s == u && path[0..] == path;
    } else {
      var key := s + rest;
      assert key[0] == s[0] && key[1..] == s[1..] + rest;
      if path != "" && path[0] == s[0] {
        FreeLiteral(patterns, u + [s[0]], s[1..], rest, path[1..]);
        assert u + [s[0]] + s[1..] == u + s && s == [s[0]] + s[1..] && path == [path[0]] + path[1..];
        PrefixShift([s[0]], s[1..], path[1..]);
        if s <= path {
          assert path[1..][|s| - 1..] == path[|s|..];
        }
      }
    }
  }

  /** A sibling's label is what is read up to the next boundary. */
  lemma LabelNext(ns: seq<Node>, patterns: set<string>, u: string, i: nat, path: string)
    requires Shape(ns, false) && Below(ns, patterns, u) && i < |ns| && ns[i].s <= path
    ensures NextAt(patterns, u, path, |ns[i].s|)
  {
    var s := ns[i].s;
    assert NodeShape(ns[i], false) && path[..|s|] == s;
    ReachBelow(ns, false, i, "");
    assert s + "" == s;
    forall m | 0 < m < |s|
      ensures !Boundary(patterns, u + path[..m])
    {
      assert path[..m][0] == s[0];
      Only(ns, path[..m], i);
    }
  }

  lemma NextLabel(ns: seq<Node>, patterns: set<string>, u: string, path: string, n: nat) returns (i: nat)
    requires Shape(ns, false) && Below(ns, patterns, u) && NextAt(patterns, u, path, n)
    ensures i < |ns| && ns[i].s == path[..n]
  {
    var part := path[..n];
    assert Reach(ns, part);
    i := Match(ns, part);
    assert NodeShape(ns[i], false);
    var k := |ns[i].s|;
    assert ns[i].s == path[..k] by {
      assert part[..k] == path[..k];
    }
    LabelNext(ns, patterns, u, i, path);
  }

  lemma BlocksBlocked(ns: seq<Node>, patterns: set<string>, u: string, path: string, j: nat)
    requires Shape(ns, false) && Below(ns, patterns, u) && j < |ns| && Blocks(ns[j], path)
    ensures Blocked(patterns, u, path)
  {
    assert NodeShape(ns[j], false) && path[0] == ns[j].s[0];
    LabelNext(ns, patterns, u, j, path);
    assert path[|ns[j].s| - 1] == ns[j].s[|ns[j].s| - 1];
  }

  lemma BlockedBlocks(ns: seq<Node>, patterns: set<string>, u: string, path: string) returns (i: nat)
    requires Shape(ns, false) && Below(ns, patterns, u) && Blocked(patterns, u, path)
    ensures i < |ns| && Blocks(ns[i], path)
  {
    var n :| NextAt(patterns, u, path, n) && (n == |path| || path[n - 1] == '/');
    i := NextLabel(ns, patterns, u, path, n);
    assert NodeShape(ns[i], false);
    LabelBlocks(ns[i], path, n);
  }

  lemma LabelBlocks(m: Node, path: string, n: nat)
    requires 0 < n <= |path| && m.s == path[..n] && path[0] != ':' && !m.root && (n == |path| || path[n - 1] == '/')
    ensures Blocks(m, path)
  {
    assert m.s[0] == path[0] && m.s[|m.s| - 1] == path[n - 1];
  }

  lemma BlockedIff(ns: seq<Node>, patterns: set<string>, u: string, path: string)
    requires Shape(ns, false) && Below(ns, patterns, u)
    ensures Blocked(patterns, u, path) == exists j :: 0 <= j < |ns| && Blocks(ns[j], path)
  {
    if j :| 0 <= j < |ns| && Blocks(ns[j], path) {
      BlocksBlocked(ns, patterns, u, path, j);
    }
    if Blocked(patterns, u, path) {
      var i := BlockedBlocks(ns, patterns, u, path);
    }
  }

  /** What is clear in the tree can be read off the patterns. */
  lemma {:induction false} ClearIff(ns: seq<Node>, root: bool, patterns: set<string>, u: string, key: string, path: string)
    requires Shape(ns, root) && Below(ns, patterns, u) && Reach(ns, key)
    requires root && key != "" ==> key[0] != ':'
    ensures Clear(ns, key, path) == Free(patterns, u, key, path)
    decreases ns
  {
    if key != "" {
      var i := Match(ns, key);
      var s, rest := ns[i].s, key[|ns[i].s|..];
      assert NodeShape(ns[i], root) && key == s + rest;
      BelowNode(ns, root, patterns, u, i);
      if s == ":" {
        BlockedIff(ns, patterns, u, path);
        ClearIff(ns[i].children, false, patterns, u + s, rest, path[Upto(path, '/')..]);
      } else {
        FreeLiteral(patterns, u, s, rest, path);
        if s <= path {
          ClearIff(ns[i].children, false, patterns, u + s, rest, path[|s|..]);
        }
      }
    }
  }

  /** In a sorted tree every `:` stands last. */
  lemma {:induction false} SortedColonsLast(ns: seq<Node>, root: bool)
    requires Shape(ns, root) && Sorted(ns)
    ensures ColonsLast(ns)
    decreases ns
  {
    ColonLast(ns, root);
    forall i | 0 <= i < |ns|
      ensures ColonsLast(ns[i].children)
    {
      assert NodeShape(ns[i], root);
      SortedColonsLast(ns[i].children, false);
    }
  }

  // --------------------------------------------------------- what siblings are sorted by

  /** Every string of `ys` behind `s`. */
  lemma {:induction false} PutBehind(s: string, ys: set<string>) returns (xs: set<string>)
    ensures |xs| == |ys| && forall x :: x in xs <==> s <= x && x[|s|..] in ys
    decreases |ys|
  {
    if ys == {} {
      xs := {};
    } else {
      var y :| y in ys;
      var rest := PutBehind(s, ys - {y});
      xs := rest + {s + y};
      assert (s + y)[|s|..] == y;
      forall x
        ensures x in xs <==> s <= x && x[|s|..] in ys
      {
        if s <= x {
          assert s + x[|s|..] == x;
        }
      }
    }
  }

  /** The boundaries of a level are those through its first sibling and those of the others. */
  lemma ReachFirst(ns: seq<Node>, root: bool, x: string)
    requires Shape(ns, root) && ns != [] && x != ""
    ensures Shape(ns[1..], root)
    ensures Reach(ns, x) <==> (ns[0].s <= x && Reach(ns[0].children, x[|ns[0].s|..])) || Reach(ns[1..], x)
    ensures ns[0].s <= x ==> !Reach(ns[1..], x)
  {
    ShapeTail(ns, root);
    assert NodeShape(ns[0], root);
    var i, k := Match(ns, x), Match(ns[1..], x);
    if ns[0].s <= x {
      MatchIs(ns, x, 0);
      forall j | 0 <= j < |ns[1..]|
        ensures ns[1..][j].s[0] != x[0]
      {
        assert ns[1..][j] == ns[j + 1];
      }
      Nobody(ns[1..], x);
    } else {
      assert i == if k < 0 then -1 else k + 1;
      assert k >= 0 ==> ns[1..][k] == ns[k + 1];
    }
  }

  /** The size of a subtree, which siblings are sorted by, is the number of its boundaries. */
  lemma {:induction false} SizeCounts(ns: seq<Node>, root: bool) returns (bs: set<string>)
    requires Shape(ns, root)
    ensures |bs| == Size(ns) && forall x :: x in bs <==> x != "" && Reach(ns, x)
    decreases ns
  {
    if ns == [] {
      bs := {};
      assert forall x :: Match(ns, x) == -1;
    } else {
      assert NodeShape(ns[0], root);
      ShapeTail(ns, root);
      var below := SizeCounts(ns[0].children, false);
      var others := SizeCounts(ns[1..], root);
      var first := PutBehind(ns[0].s, below + {""});
      bs := first + others;
      forall x
        ensures x in bs <==> x != "" && Reach(ns, x)
        ensures !(x in first && x in others)
      {
        if x != "" {
          ReachFirst(ns, root, x);
        }
      }
      assert first * others == {};
      assert |below + {""}| == |below| + 1;
    }
  }
}
