/** Routes that end in a wildcard, registered behind other routes. */
module RouteWild {
  import opened Options
  import opened Text
  import opened Segments
  import opened Patterns
  import opened RouteTree
  import opened RouteInsert
  import opened RouteOrder
  import opened RouteFind
  import opened RouteTable
  import opened RouteLookup
  import opened RouteExact
  import Router
  import Rearrange
  import Store = MemStore
  import Reverse

  /** The pattern of `path` is the start `s` with a wildcard behind it; `s` may have parameters. */
  ghost predicate WildPath(path: string, s: string, name: string) {
    && Strip(path).0 == s + "*" + name && s != "" && s[0] == '/' && s[|s| - 1] == '/' && '*' !in s
    && name != "" && ':' !in name
  }

  /** The node a wildcard becomes; the one that takes every path has a label of its own. */
  function WildNode(s: string, name: string, names: seq<string>, handlers: seq<Handler>): Node {
    Node(if s == "/" then "//" else s, name, names, handlers, [], true, s == "/")
  }

  ghost predicate IsWild(n: Node) {
    exists s, name, names, handlers ::
      n == WildNode(s, name, names, handlers) && s != "" && s[0] == '/' && s[|s| - 1] == '/' && name != "" && handlers != []
  }

  ghost predicate AllWild(ws: seq<Node>) {
    forall i :: 0 <= i < |ws| ==> IsWild(ws[i])
  }

  // ------------------------------------------------------------------- registration

  /** The tree with a boundary on both sides of each `:` of `s`. */
  function Enclosed(ns: seq<Node>, s: string): seq<Node> {
    AddBoundaries(ns, s, ColonsFrom(s, 0))
  }

  /** A wildcard becomes a node behind all others, whatever they are, and never an error. The `:`s of its start are
      enclosed first, which changes nothing when there are none. */
  lemma InsertWild(ns: seq<Node>, path: string, s: string, name: string, handlers: seq<Handler>)
    requires WildPath(path, s, name)
    ensures Insert(ns, path, handlers) == AddResult(Enclosed(ns, s) + [WildNode(s, name, Strip(path).1, handlers)], false)
    ensures ':' !in s ==> Enclosed(ns, s) == ns
  {
    var pattern, names := Strip(path).0, Strip(path).1;
    PatternParts(pattern, s, name);
    EnclosedStart(ns, s, pattern, 0);
    StarAdded(Enclosed(ns, s), pattern, s, name, names, handlers);
    if ':' !in s {
      NoColons(s, 0);
    }
  }

  lemma PatternParts(pattern: string, s: string, name: string)
    requires pattern == s + "*" + name && s != "" && s[|s| - 1] == '/' && '*' !in s && ':' !in name
    ensures s <= pattern && ':' !in pattern[|s|..] && pattern[|s|..] == "*" + name
    ensures Upto(pattern, '*') == |s| < |pattern| && pattern[|s| + 1..] == name && pattern[..|s| - 1] + "/" == s
  {
    var rest := "*" + name;
    assert pattern == s + rest;
    assert pattern[..|s|] == s && pattern[|s|..] == rest && rest[1..] == name;
    UptoIs(s, rest, '*');
    assert pattern[..|s| - 1] == s[..|s| - 1];
  }

  lemma StarAdded(ns: seq<Node>, pattern: string, s: string, name: string, names: seq<string>, handlers: seq<Handler>)
    requires s != "" && name != "" && Upto(pattern, '*') == |s| < |pattern|
    requires pattern[|s| + 1..] == name && pattern[..|s| - 1] + "/" == s
    ensures AddTo(ns, pattern, names, handlers, true) == AddResult(ns + [WildNode(s, name, names, handlers)], false)
  {
  }

  /** What stands behind a start that ends in `/` has no part in this. */
  lemma {:induction false} EnclosedStart(ns: seq<Node>, s: string, path: string, i: nat)
    requires s != "" && s[|s| - 1] == '/' && s <= path && ':' !in path[|s|..] && i <= |s|
    ensures AddBoundaries(ns, path, ColonsFrom(path, i)) == AddBoundaries(ns, s, ColonsFrom(s, i))
    decreases |s| - i
  {
    if i == |s| {
      NoColonsBehind(path, i);
    } else if s[i] != ':' {
      ColonsSkip(path, i);
      ColonsSkip(s, i);
      EnclosedStart(ns, s, path, i + 1);
    } else {
      FirstColon(path, i);
      FirstColon(s, i);
      AroundStart(ns, s, path, i);
      EnclosedStart(Around(ns, s, i), s, path, i + 1);
    }
  }

  lemma ColonsSkip(path: string, i: nat)
    requires i < |path| && path[i] != ':'
    ensures ColonsFrom(path, i) == ColonsFrom(path, i + 1)
  {
  }

  lemma AroundStart(ns: seq<Node>, s: string, path: string, i: nat)
    requires s <= path && i + 1 < |s|
    ensures Around(ns, path, i) == Around(ns, s, i)
  {
    assert path[..i] == s[..i] && path[..i + 1] == s[..i + 1];
  }

  lemma FirstColon(path: string, i: nat)
    requires i < |path| && path[i] == ':'
    ensures ColonsFrom(path, i) != [] && ColonsFrom(path, i)[0] == i && ColonsFrom(path, i)[1..] == ColonsFrom(path, i + 1)
  {
  }

  lemma NoColonsBehind(path: string, i: nat)
    requires i <= |path| && ':' !in path[i..]
    ensures ColonsFrom(path, i) == []
    decreases |path| - i
  {
    if i < |path| {
      assert path[i] == path[i..][0] && path[i + 1..] == path[i..][1..];
      NoColonsBehind(path, i + 1);
    }
  }

  /** The start up to its last `:`. */
  function ParamsEnd(s: string): (t: string)
    ensures t <= s && ':' !in s[|t|..]
    ensures t != "" ==> t[|t| - 1] == ':'
  {
    if s == "" || s[|s| - 1] == ':' then s
    else
      var t := ParamsEnd(s[..|s| - 1]);
      assert s[|t|..] == s[..|s| - 1][|t|..] + [s[|s| - 1]];
      t
  }

  /** What a start offers to the tree: a pattern without handlers, if it has parameters. */
  function Marks(s: string): (m: set<string>)
    ensures forall p :: p in m ==> ':' in p
    ensures ':' !in s ==> m == {}
  {
    if ParamsEnd(s) == "" then {} else {ParamsEnd(s)}
  }

  /** Enclosing the `:`s of a start adds a boundary at the last one and on both sides of the others. */
  lemma {:induction false} EnclosedLast(ns: seq<Node>, s: string, t: string, i: nat)
    requires t < s && t != "" && t[|t| - 1] == ':' && ':' !in s[|t|..] && i < |t|
    ensures AddBoundaries(ns, s, ColonsFrom(s, i)) == AddTo(AddBoundaries(ns, t, ColonsFrom(t, i)), t, [], [], true).nodes
    decreases |t| - i
  {
    if t[i] != ':' {
      ColonsSkip(s, i);
      ColonsSkip(t, i);
      EnclosedLast(ns, s, t, i + 1);
    } else {
      FirstColon(s, i);
      FirstColon(t, i);
      if i + 1 == |t| {
        NoColonsBehind(s, i + 1);
        AroundLast(ns, s, t, i);
      } else {
        AroundStart(ns, t, s, i);
        EnclosedLast(Around(ns, t, i), s, t, i + 1);
      }
    }
  }

  lemma AroundLast(ns: seq<Node>, s: string, t: string, i: nat)
    requires t < s && i + 1 == |t|
    ensures Around(ns, s, i) == AddTo(Around(ns, t, i), t, [], [], true).nodes
  {
    assert s[..i] == t[..i] && s[..i + 1] == t;
  }

  /** That offers one pattern more, and changes no entry. */
  lemma EnclosedHolds(ns: seq<Node>, table: Table, patterns: set<string>, s: string)
    requires Shape(ns, true) && Holds(ns, table, patterns)
    requires s != "" && s[0] == '/' && s[|s| - 1] == '/' && '*' !in s && Normal(s)
    ensures Shape(Enclosed(ns, s), true) && Holds(Enclosed(ns, s), table, patterns + Marks(s))
  {
    var t := ParamsEnd(s);
    if t == "" {
      assert s[|t|..] == s && patterns + {} == patterns;
      NoColons(s, 0);
    } else {
      assert t[0] == '/' && '*' !in t && Normal(t);
      EnclosedLast(ns, s, t, 0);
      MarkHolds(ns, table, patterns, t);
    }
  }

  lemma MarkHolds(ns: seq<Node>, table: Table, patterns: set<string>, t: string)
    requires Shape(ns, true) && Holds(ns, table, patterns) && PatternShape(t) && '*' !in t
    ensures var r := AddTo(Enclosed(ns, t), t, [], [], true).nodes; Shape(r, true) && Holds(r, table, patterns + {t})
  {
    BoundariesSpec(ns, t, 0);
    FinalMerge(ns, Enclosed(ns, t), t, [], []);
    InsertBounds(ns, patterns, AddTo(Enclosed(ns, t), t, [], [], true).nodes, t);
  }

  /** Wildcards behind the plain tree are left alone by this too. */
  lemma EnclosedBeside(n: Node, ws: seq<Node>, s: string)
    requires NodeShape(n, true) && n.s[0] == '/' && s != "" && s[0] == '/' && '*' !in s
    ensures var r := Enclosed([n], s);
            Enclosed([n] + ws, s) == r + ws && |r| == 1 && NodeShape(r[0], true) && r[0].s[0] == '/'
  {
    BoundariesBeside(n, ws, s, 0);
  }

  lemma {:induction false} NoColons(path: string, i: nat)
    requires ':' !in path && i <= |path|
    ensures ColonsFrom(path, i) == []
    decreases |path| - i
  {
    if i < |path| {
      NoColons(path, i + 1);
    }
  }

  /** A tree of plain routes has one root node. */
  lemma OneStart(ns: seq<Node>, patterns: set<string>, p: string)
    requires Shape(ns, true) && Bounds(ns, patterns) && p in patterns
    ensures |ns| == 1 && NodeShape(ns[0], true) && ns[0].s[0] == '/'
  {
    SomeRoot(ns, patterns, p);
    RootSlash(ns, patterns, 0);
    if |ns| > 1 {
      RootSlash(ns, patterns, 1);
    }
  }

  lemma OneRoot(ns: seq<Node>, table: Table, patterns: set<string>)
    requires Represents(ns, table, patterns) && patterns != {}
    ensures |ns| == 1 && ns[0].s[0] == '/' && NodeShape(ns[0], true)
  {
    var p :| p in patterns;
    OneStart(ns, patterns, p);
  }

  lemma SomeRoot(ns: seq<Node>, patterns: set<string>, p: string)
    requires Bounds(ns, patterns) && p in patterns
    ensures ns != []
  {
    assert Reach(ns, p) && PatternShape(p);
  }

  lemma RootSlash(ns: seq<Node>, patterns: set<string>, i: nat)
    requires Shape(ns, true) && Bounds(ns, patterns) && i < |ns|
    ensures ns[i].s != "" && ns[i].s[0] == '/'
  {
    assert NodeShape(ns[i], true);
    ReachBelow(ns, true, i, "");
    assert ns[i].s + "" == ns[i].s;
    BoundaryCovered(patterns, ns[i].s);
    var q :| q in patterns && ns[i].s <= q;
    assert PatternShape(q);
  }

  /** What a plain insertion does to the plain tree it does in front of wildcards too. */
  lemma MergeBeside(n: Node, ws: seq<Node>, path: string, names: seq<string>, handlers: seq<Handler>)
    requires NodeShape(n, true) && n.s[0] == '/' && path != "" && path[0] == '/' && '*' !in path
    ensures AddTo([n] + ws, path, names, handlers, true).nodes == AddTo([n], path, names, handlers, true).nodes + ws
    ensures AddTo([n] + ws, path, names, handlers, true).duplicate == AddTo([n], path, names, handlers, true).duplicate
  {
    AddToPlain([n] + ws, path, names, handlers, true);
    AddToPlain([n], path, names, handlers, true);
    assert Target([n] + ws, path) == 0 && Target([n], path) == 0;
    var m := MergeNode(n, path, "", names, handlers).node;
    assert ([n] + ws)[0 := m] == [n][0 := m] + ws;
  }

  /** The root node stays one, and starts with a slash. */
  lemma MergeRoot(n: Node, path: string, names: seq<string>, handlers: seq<Handler>)
    requires NodeShape(n, true) && n.s[0] == '/' && path != "" && path[0] == '/' && '*' !in path && Ready([n], path)
    ensures var r := AddTo([n], path, names, handlers, true).nodes; |r| == 1 && NodeShape(r[0], true) && r[0].s[0] == '/'
  {
    assert Shape([n], true);
    AddToPlain([n], path, names, handlers, true);
    ShapeAfterMerge([n], true, path, names, handlers);
    MergeLevel([n], path, names, handlers, true);
    assert Target([n], path) == 0;
  }

  lemma AroundBeside(n: Node, ws: seq<Node>, path: string, i: nat)
    requires NodeShape(n, true) && n.s[0] == '/' && path != "" && path[0] == '/' && '*' !in path
    requires 0 < i < |path| && path[i] == ':' && ReadyTo([n], path, i)
    ensures var r := Around([n], path, i);
            && Around([n] + ws, path, i) == r + ws
            && |r| == 1 && NodeShape(r[0], true) && r[0].s[0] == '/' && ReadyTo(r, path, i + 1)
  {
    assert Shape([n], true);
    NoStar(path, i);
    MergeBeside(n, ws, path[..i], [], []);
    ReadyPart([n], path, i, i);
    MergeRoot(n, path[..i], [], []);
    AroundSpec([n], path, i);
    var before := AddTo([n], path[..i], [], [], true).nodes;
    assert before == [before[0]];
    if i + 1 < |path| {
      NoStar(path, i + 1);
      MergeBeside(before[0], ws, path[..i + 1], [], []);
      EndsSide(path, i);
      BoundaryStep([n], path, i, i);
      ReadyPart(before, path, i, i + 1);
      MergeRoot(before[0], path[..i + 1], [], []);
    }
  }

  lemma {:induction false} BoundariesBeside(n: Node, ws: seq<Node>, path: string, i: nat)
    requires NodeShape(n, true) && n.s[0] == '/' && path != "" && path[0] == '/' && '*' !in path
    requires i <= |path| && ReadyTo([n], path, i)
    ensures var r := AddBoundaries([n], path, ColonsFrom(path, i));
            && AddBoundaries([n] + ws, path, ColonsFrom(path, i)) == r + ws
            && |r| == 1 && NodeShape(r[0], true) && r[0].s[0] == '/' && ReadyTo(r, path, |path|)
    decreases |path| - i
  {
    var ps := ColonsFrom(path, i);
    if i == |path| {
      assert ps == [];
    } else if path[i] != ':' {
      assert ps == ColonsFrom(path, i + 1);
      ReadySkip([n], path, i);
      BoundariesBeside(n, ws, path, i + 1);
    } else {
      assert ps[0] == i && ps[1..] == ColonsFrom(path, i + 1);
      AroundBeside(n, ws, path, i);
      var r := Around([n], path, i);
      assert r == [r[0]];
      BoundariesBeside(r[0], ws, path, i + 1);
    }
  }

  /** A plain registration goes on in the plain tree, and leaves the wildcards behind it alone. */
  lemma InsertBeside(n: Node, ws: seq<Node>, path: string, handlers: seq<Handler>)
    requires NodeShape(n, true) && n.s[0] == '/' && path != "" && path[0] == '/' && '*' !in Strip(path).0
    ensures Insert([n] + ws, path, handlers) ==
              AddResult(Insert([n], path, handlers).nodes + ws, Insert([n], path, handlers).duplicate)
  {
    var (pattern, names) := Strip(path);
    StripSpec(path);
    BoundariesBeside(n, ws, pattern, 0);
    var r := AddBoundaries([n], pattern, ColonsFrom(pattern, 0));
    assert r == [r[0]];
    MergeBeside(r[0], ws, pattern, names, handlers);
  }

  // ----------------------------------------------------------------------- ordering

  lemma WildVaries(n: Node)
    requires IsWild(n)
    ensures n.IsDynamic() && n.children == [] && n.s != "" && n.s[|n.s| - 1] == '/' && n.root && n.wildcardName != "" && n.handlers != []
    ensures n.rootWildcard || (n.s != "/" && n.s[0] == '/')
  {
  }

  lemma WildOrdered(n: Node, r: Node)
    requires IsWild(n) && PrioritizedNode(n, r)
    ensures r == n
  {
    WildVaries(n);
    LeafOrdered(n, r);
  }

  lemma NoneOrdered(r: seq<Node>)
    requires Prioritized([], r)
    ensures r == []
  {
    var none: seq<Node> := [];
    var mid: seq<Node> :| Arranged(none, mid) && |mid| == |r|;
    Rearrange.Same(none, mid);
  }

  /** Ordering keeps the plain root first, ordered by itself, and the wildcards behind it in some order. */
  lemma OrderBeside(n: Node, ws: seq<Node>, r: seq<Node>)
    requires NodeShape(n, true) && n.s[0] == '/' && AllWild(ws) && Prioritized([n] + ws, r)
    ensures r != [] && Prioritized([n], [r[0]]) && multiset(r[1..]) == multiset(ws) && AllWild(r[1..])
  {
    var ns := [n] + ws;
    var mid: seq<Node> :| Arranged(ns, mid) && |mid| == |r| &&
      forall i :: 0 <= i < |mid| ==> mid[i] in ns && PrioritizedNode(mid[i], r[i]);
    PlainFirst(n, ws, mid);
    RestArranged(n, ws, mid);
    forall i | 0 <= i < |r[1..]|
      ensures r[1..][i] == mid[1..][i] && IsWild(r[1..][i])
    {
      WildKept(ws, mid, r, i);
    }
    assert r[1..] == mid[1..];
    assert PrioritizedNode(mid[0], r[0]);
    AloneOrdered(n, r[0]);
  }

  lemma WildKept(ws: seq<Node>, mid: seq<Node>, r: seq<Node>, i: nat)
    requires AllWild(ws) && |mid| == |r| && i + 1 < |r| && PrioritizedNode(mid[i + 1], r[i + 1]) && mid[1..][i] in ws
    ensures r[1..][i] == mid[1..][i] && IsWild(r[1..][i])
  {
    var k :| 0 <= k < |ws| && ws[k] == mid[1..][i];
    WildOrdered(mid[i + 1], r[i + 1]);
  }

  lemma AloneOrdered(n: Node, r: Node)
    requires PrioritizedNode(n, r)
    ensures Prioritized([n], [r])
  {
    assert Arranged([n], [n]);
  }

  lemma RestArranged(n: Node, ws: seq<Node>, mid: seq<Node>)
    requires mid != [] && mid[0] == n && multiset(mid) == multiset([n] + ws)
    ensures multiset(mid[1..]) == multiset(ws) && forall i :: 0 <= i < |mid[1..]| ==> mid[1..][i] in ws
  {
    assert mid == [n] + mid[1..];
    assert multiset(mid) == multiset([n]) + multiset(mid[1..]) && multiset([n] + ws) == multiset([n]) + multiset(ws);
    assert multiset(mid[1..]) == multiset(mid) - multiset([n]) && multiset(ws) == multiset([n] + ws) - multiset([n]);
    Rearrange.Same(ws, mid[1..]);
  }

  lemma PlainFirst(n: Node, ws: seq<Node>, mid: seq<Node>)
    requires NodeShape(n, true) && n.s[0] == '/' && AllWild(ws) && Arranged([n] + ws, mid)
    ensures mid != [] && mid[0] == n
  {
    var ns := [n] + ws;
    Rearrange.Same(mid, ns);
    Rearrange.Same(ns, mid);
    assert ns[0] == n && n in mid;
    forall k | 0 <= k < |ws|
      ensures Less(n, ws[k])
    {
      WildVaries(ws[k]);
    }
    var p :| 0 <= p < |mid| && mid[p] == n;
    FrontIs(n, ws, mid, p);
  }

  lemma FrontIs(n: Node, ws: seq<Node>, mid: seq<Node>, p: nat)
    requires p < |mid| && mid[p] == n && SortedBy(mid) && mid[0] in [n] + ws
    requires forall k :: 0 <= k < |ws| ==> Less(n, ws[k])
    ensures mid[0] == n
  {
  }

  /** The tree of a plain table with wildcards behind it. */
  ghost predicate Mixed(ns: seq<Node>, table: Table, patterns: set<string>, wilds: multiset<Node>) {
    ns != [] && patterns != {} && Represents([ns[0]], table, patterns) && AllWild(ns[1..]) && multiset(ns[1..]) == wilds
  }

  /** A plain registration adds its entry to the table, or is an error, as without wildcards. */
  lemma AddPlainBeside(ns: seq<Node>, table: Table, patterns: set<string>, wilds: multiset<Node>, reg: Registration, r: seq<Node>)
    requires Mixed(ns, table, patterns, wilds) && Plain(reg.path) && Next(ns, reg, r)
    ensures Mixed(r, Registered(table, reg.path, reg.handlers), patterns + {Strip(reg.path).0}, wilds)
    ensures Insert(ns, reg.path, reg.handlers).duplicate == (reg.handlers != [] && Strip(reg.path).0 in table)
  {
    var n, ws := ns[0], ns[1..];
    assert ns == [n] + ws;
    OneRoot([n], table, patterns);
    InsertBeside(n, ws, reg.path, reg.handlers);
    var own := Insert([n], reg.path, reg.handlers);
    if own.duplicate {
      AddKeeps([n], table, patterns, reg.path, reg.handlers, own.nodes);
      assert r == [n] + ws;
    } else {
      AddOrdered(n, ws, table, patterns, reg, r);
    }
  }

  lemma AddOrdered(n: Node, ws: seq<Node>, table: Table, patterns: set<string>, reg: Registration, r: seq<Node>)
    requires Represents([n], table, patterns) && patterns != {} && AllWild(ws) && Plain(reg.path)
    requires !Insert([n], reg.path, reg.handlers).duplicate && Prioritized(Insert([n], reg.path, reg.handlers).nodes + ws, r)
    ensures Mixed(r, Registered(table, reg.path, reg.handlers), patterns + {Strip(reg.path).0}, multiset(ws))
    ensures !(reg.handlers != [] && Strip(reg.path).0 in table)
  {
    var own := Insert([n], reg.path, reg.handlers).nodes;
    OneNode(n, table, patterns, reg.path, reg.handlers);
    assert own == [own[0]];
    OrderBeside(own[0], ws, r);
    AddKeeps([n], table, patterns, reg.path, reg.handlers, [r[0]]);
  }

  lemma OneNode(n: Node, table: Table, patterns: set<string>, path: string, handlers: seq<Handler>)
    requires Represents([n], table, patterns) && patterns != {} && Plain(path)
    ensures var r := Insert([n], path, handlers).nodes; |r| == 1 && NodeShape(r[0], true) && r[0].s[0] == '/'
  {
    var (pattern, names) := Strip(path);
    OneRoot([n], table, patterns);
    StripSpec(path);
    BoundariesBeside(n, [], pattern, 0);
    var r := AddBoundaries([n], pattern, ColonsFrom(pattern, 0));
    assert r == [r[0]];
    ReadyPart(r, pattern, |pattern|, |pattern|);
    assert pattern[..|pattern|] == pattern;
    MergeRoot(r[0], pattern, names, handlers);
  }

  /** A wildcard registration leaves the table alone and adds its node. */
  lemma AddWildBeside(ns: seq<Node>, table: Table, patterns: set<string>, wilds: multiset<Node>, reg: Registration, r: seq<Node>,
                      s: string, name: string)
    requires Mixed(ns, table, patterns, wilds) && WildPath(reg.path, s, name) && reg.handlers != [] && Next(ns, reg, r)
    ensures Mixed(r, table, patterns + Marks(s), wilds + multiset{WildNode(s, name, Strip(reg.path).1, reg.handlers)})
  {
    var n, ws, w := ns[0], ns[1..], WildNode(s, name, Strip(reg.path).1, reg.handlers);
    InsertWild(ns, reg.path, s, name, reg.handlers);
    assert IsWild(w) && ns == [n] + ws;
    OneMore(ws, w);
    WildNormal(reg.path, s, name);
    EnclosedOrdered(n, ws, table, patterns, s, w, r);
  }

  lemma EnclosedOrdered(n: Node, ws: seq<Node>, table: Table, patterns: set<string>, s: string, w: Node, r: seq<Node>)
    requires Represents([n], table, patterns) && patterns != {} && AllWild(ws) && AllWild(ws + [w])
    requires s != "" && s[0] == '/' && s[|s| - 1] == '/' && '*' !in s && Normal(s)
    requires Prioritized(Enclosed([n] + ws, s) + [w], r)
    ensures Mixed(r, table, patterns + Marks(s), multiset(ws + [w]))
  {
    OneRoot([n], table, patterns);
    EnclosedBeside(n, ws, s);
    EnclosedHolds([n], table, patterns, s);
    var own := Enclosed([n], s);
    assert own == [own[0]] && own + ws + [w] == own + (ws + [w]);
    OrderMixed(own[0], ws + [w], table, patterns + Marks(s), r);
  }

  lemma WildNormal(path: string, s: string, name: string)
    requires WildPath(path, s, name)
    ensures Normal(s)
  {
    StripSpec(path);
    StartNormal(Strip(path).0, s);
  }

  lemma StartNormal(pattern: string, s: string)
    requires s <= pattern && Normal(pattern)
    ensures Normal(s)
  {
    forall j | 0 <= j && j + 1 < |s| && s[j] == ':'
      ensures s[j + 1] == '/'
    {
      assert pattern[j] == ':' && pattern[j + 1] == s[j + 1];
    }
  }

  lemma OneMore(ws: seq<Node>, w: Node)
    requires AllWild(ws) && IsWild(w)
    ensures AllWild(ws + [w]) && multiset(ws + [w]) == multiset(ws) + multiset{w}
  {
  }

  lemma OrderMixed(n: Node, ws: seq<Node>, table: Table, patterns: set<string>, r: seq<Node>)
    requires Shape([n], true) && Holds([n], table, patterns) && patterns != {} && AllWild(ws) && Prioritized([n] + ws, r)
    ensures Mixed(r, table, patterns, multiset(ws))
  {
    var p :| p in patterns;
    OneStart([n], patterns, p);
    OrderBeside(n, ws, r);
    OrderHolds([n], table, patterns, [r[0]]);
  }

  // ------------------------------------------------------------------------- lookup

  /** The wildcard starts the path, or takes every path. */
  predicate Takes(w: Node, path: string) {
    w.rootWildcard || w.s <= path
  }

  /** What the wildcard's name gets: the path behind its start; nothing when the path is the start itself. */
  function WildValues(w: Node, path: string): seq<string> {
    if w.rootWildcard then [if |path| < 2 then path else path[1..]]
    else if |path| <= |w.s| then []
    else [path[|w.s|..]]
  }

  lemma {:induction false} WildLabelled(ws: seq<Node>)
    requires AllWild(ws)
    ensures Labelled(ws)
  {
    forall i | 0 <= i < |ws|
      ensures ws[i].s != "" && Labelled(ws[i].children)
    {
      WildVaries(ws[i]);
    }
  }

  /** Among wildcards the first that takes the path answers. */
  lemma {:induction false} FindWild(ws: seq<Node>, path: string, k: nat)
    requires AllWild(ws) && Labelled(ws) && k < |ws| && Takes(ws[k], path) && forall j :: 0 <= j < k ==> !Takes(ws[j], path)
    ensures FindChild(ws, path, []) == Found(ws[k], WildValues(ws[k], path))
    decreases k
  {
    WildVaries(ws[0]);
    if k > 0 {
      WildTail(ws);
      FindWild(ws[1..], path, k - 1);
    } else {
      WildAnswers(ws[0], path);
    }
  }

  lemma WildTail(ws: seq<Node>)
    requires AllWild(ws) && Labelled(ws) && ws != []
    ensures AllWild(ws[1..]) && Labelled(ws[1..])
  {
    LabelledFrom(ws, 1);
    assert forall i :: 0 <= i < |ws[1..]| ==> ws[1..][i] == ws[i + 1];
  }

  lemma WildAnswers(w: Node, path: string)
    requires IsWild(w) && Takes(w, path) && w.s != "" && Labelled(w.children)
    ensures TryOne(w, path, []) == Stop(Found(w, WildValues(w, path)))
  {
    WildVaries(w);
    var long := "/" + path;
    var none: seq<string> := [];
    assert long[1..] == path && w.s != ":";
    assert none + [path] == [path] && (path != "" ==> none + [path[1..]] == [path[1..]]);
    assert w.s <= path ==> none + [path[|w.s|..]] == [path[|w.s|..]];
  }

  lemma {:induction false} FindNoWild(ws: seq<Node>, path: string)
    requires AllWild(ws) && Labelled(ws) && forall j :: 0 <= j < |ws| ==> !Takes(ws[j], path)
    ensures FindChild(ws, path, []) == Missing
    decreases |ws|
  {
    if ws != [] {
      WildVaries(ws[0]);
      WildTail(ws);
      FindNoWild(ws[1..], path);
    }
  }

  /** The path is what all patterns start with, and no pattern's first boundary comes before its end. */
  ghost predicate SharedStart(patterns: set<string>, path: string) {
    NextAt(patterns, "", path, |path|)
  }

  lemma StartIs(n: Node, patterns: set<string>, path: string)
    requires Shape([n], true) && Bounds([n], patterns) && path != ""
    ensures SharedStart(patterns, path) <==> n.s == path
  {
    assert path[..|path|] == path;
    assert NodeShape([n][0], true);
    forall m | 0 < m <= |path|
      ensures Boundary(patterns, "" + path[..m]) == Reach([n], path[..m])
    {
      assert "" + path[..m] == path[..m];
      ReachBoundary([n], patterns, path[..m]);
    }
    StartReached(n, path);
  }

  lemma StartReached(n: Node, path: string)
    requires n.s != "" && path != "" && Level([n])
    ensures n.s == path <==> Reach([n], path) && forall m :: 0 < m < |path| ==> !Reach([n], path[..m])
  {
    var k := |n.s|;
    if n.s <= path {
      var part := path[..k];
      assert part == n.s && part[k..] == "";
      Only([n], part, 0);
    }
    if n.s == path {
      forall m | 0 < m < |path|
        ensures !Reach([n], path[..m])
      {
        assert !(n.s <= path[..m]);
      }
    }
  }

  /** Each offered pattern without parameters has handlers. */
  ghost predicate Served(table: Table, patterns: set<string>) {
    forall p :: p in patterns && ':' !in p ==> p in table
  }

  /** A root without children, of such patterns, has handlers. */
  lemma LeafRoot(n: Node, table: Table, patterns: set<string>)
    requires Represents([n], table, patterns) && Served(table, patterns) && patterns != {} && n.children == []
    ensures n.handlers != [] && n.s in table
  {
    var p :| p in patterns;
    assert Reach([n], p) && PatternShape(p);
    OneRoot([n], table, patterns);
    assert ColonLabel(n.s) && n.s != ":";
    assert Get([n], p) == if p in table then Some(table[p]) else None;
    LeafReach(n, p);
  }

  lemma LeafReach(n: Node, p: string)
    requires n.children == [] && Reach([n], p) && p != ""
    ensures p == n.s && Get([n], p) == GetNode(n, p)
  {
    assert Match([n], p) == 0;
    assert ReachNode(n, p);
    var rest := p[|n.s|..];
    assert Reach(n.children, rest) && Match(n.children, rest) == -1;
    assert p == n.s + rest;
  }

  /** The plain root stops a search it fails only where the path ends with its label. */
  lemma RootPasses(n: Node, table: Table, patterns: set<string>, path: string)
    requires Represents([n], table, patterns) && Served(table, patterns) && patterns != {} && CleanTable(table) && Labelled([n])
    requires path != "" && FindChild([n], path, []) == Missing && n.s != path && n.s != "" && Labelled(n.children)
    ensures TryOne(n, path, []) == Pass
  {
    OneRoot([n], table, patterns);
    if n.children == [] {
      LeafRoot(n, table, patterns);
    }
    assert [n][1..] == [];
  }

  lemma FirstTried(n: Node, ws: seq<Node>, path: string)
    requires Labelled([n] + ws) && Labelled([n]) && Labelled(ws) && n.s != "" && Labelled(n.children)
    ensures FindChild([n] + ws, path, []) == if TryOne(n, path, []).Stop? then TryOne(n, path, []).result else FindChild(ws, path, [])
    ensures FindChild([n], path, []) == if TryOne(n, path, []).Stop? then TryOne(n, path, []).result else Missing
  {
    assert ([n] + ws)[0] == n && ([n] + ws)[1..] == ws && [n][1..] == [];
  }

  /** The first wildcard that takes the path; their number when none does. */
  function FirstTaker(ws: seq<Node>, path: string): (k: nat)
    ensures k <= |ws|
    ensures k < |ws| ==> Takes(ws[k], path)
    ensures forall j :: 0 <= j < k ==> !Takes(ws[j], path)
  {
    if ws == [] || Takes(ws[0], path) then 0
    else
      var k := FirstTaker(ws[1..], path);
      assert forall j :: 0 < j < |ws| ==> ws[j] == ws[1..][j - 1];
      k + 1
  }

  lemma MixedLabelled(ns: seq<Node>, table: Table, patterns: set<string>, wilds: multiset<Node>)
    requires Mixed(ns, table, patterns, wilds)
    ensures Labelled(ns) && Labelled([ns[0]]) && Labelled(ns[1..]) && ns == [ns[0]] + ns[1..]
  {
    RepresentsLabelled([ns[0]], table, patterns);
    WildLabelled(ns[1..]);
    assert [ns[0]][0] == ns[0];
    forall i | 0 <= i < |ns|
      ensures ns[i].s != "" && Labelled(ns[i].children)
    {
      assert i > 0 ==> ns[i] == ns[1..][i - 1];
    }
  }

  /** The plain routes decide as if they were alone; a path they do not find goes to the first wildcard that takes it,
      unless it is just what all plain patterns start with. */
  ghost predicate MixedAnswer(ns: seq<Node>, table: Table, patterns: set<string>, path: string, found: FindResult)
    requires ns != []
  {
    if IsFreeHit(table, patterns, path) then
      found.Found? && forall key, values :: FirstHit(table, patterns, path, key, values) ==> AnswersHit(table, found, key, values)
    else
      var k := FirstTaker(ns[1..], path);
      if SharedStart(patterns, path) || k == |ns[1..]| then found == Missing
      else found == Found(ns[1..][k], WildValues(ns[1..][k], path))
  }

  /** Lookup among plain routes and wildcards. */
  lemma LookupMixed(ns: seq<Node>, table: Table, patterns: set<string>, wilds: multiset<Node>, path: string)
    requires Mixed(ns, table, patterns, wilds) && Served(table, patterns) && CleanTable(table) && path != ""
    ensures Labelled(ns) && MixedAnswer(ns, table, patterns, path, FindChild(ns, path, []))
  {
    var n, ws := ns[0], ns[1..];
    MixedLabelled(ns, table, patterns, wilds);
    assert [n][0] == n && NodeShape([n][0], true);
    FirstTried(n, ws, path);
    LookupExact([n], table, patterns, path);
    if !IsFreeHit(table, patterns, path) {
      StartIs(n, patterns, path);
      if n.s == path {
        RootHere(n, path);
      } else {
        RootPasses(n, table, patterns, path);
        var k := FirstTaker(ws, path);
        if k < |ws| {
          FindWild(ws, path, k);
        } else {
          FindNoWild(ws, path);
        }
      }
    }
  }

  lemma RootHere(n: Node, path: string)
    requires NodeShape(n, true) && Labelled(n.children) && n.s == path
    ensures TryOne(n, path, []).Stop?
  {
  }

  /** A wildcard behind a parameter keeps the bare `:` in its label: it takes no path without one. */
  lemma BehindParamMisses(w: Node, path: string)
    requires IsWild(w) && ':' in w.s && Takes(w, path)
    ensures ':' in path
  {
    var i :| 0 <= i < |w.s| && w.s[i] == ':';
    assert path[i] == ':';
  }

  /** The wildcard's value is stored under its name. */
  lemma WildStored(w: Node, path: string, es: seq<Store.Entry>)
    requires IsWild(w) && Takes(w, path) && path != w.s && w.names == [] && Store.Mutable(es)
    ensures |WildValues(w, path)| == 1
    ensures var after := Router.SavesTo(w.names, WildValues(w, path), w.wildcardName, es);
            Store.Looked(after, w.wildcardName) == [WildValues(w, path)[0]]
            && forall other :: other != w.wildcardName ==> Store.Looked(after, other) == Store.Looked(es, other)
  {
    WildVaries(w);
    var v := WildValues(w, path)[0];
    forall other
      ensures Store.Looked(Store.Saved(es, w.wildcardName, v, false), other) == if other == w.wildcardName then [v] else Store.Looked(es, other)
    {
      Store.SavedGet(es, w.wildcardName, v, false, other);
    }
  }

  // ------------------------------------------------- wildcards registered before the others

  /** A wildcard without a name is registered as its static start. */
  lemma InsertStar(ns: seq<Node>, s: string, handlers: seq<Handler>)
    requires s != "" && s[0] == '/' && s[|s| - 1] == '/' && ':' !in s && '*' !in s
    ensures Insert(ns, s + "*", handlers) == Insert(ns, s, handlers)
  {
    var path := s + "*";
    Reverse.StripNone(path);
    Reverse.StripNone(s);
    NoColons(path, 0);
    NoColons(s, 0);
    UptoIs(s, "*", '*');
    assert path[|s| + 1..] == "" && path[..|s| - 1] + "/" == s;
    AddToPlain(ns, s, [], handlers, true);
  }

  /** A static path that goes on behind the start of the first sibling, a wildcard, becomes a node of its own. */
  lemma InsertBehindWild(s: string, name: string, names: seq<string>, handlers: seq<Handler>, ws: seq<Node>, path: string, hs: seq<Handler>)
    requires s != "" && s != "/" && s[0] == '/' && name != "" && s < path && ':' !in path && '*' !in path
    ensures Insert([WildNode(s, name, names, handlers)] + ws, path, hs) ==
              AddResult([WildNode(s, name, names, handlers)] + ws + [Node(path, "", [], hs, [], true, false)], false)
  {
    var w := WildNode(s, name, names, handlers);
    var ns := [w] + ws;
    Reverse.StripNone(path);
    NoColons(path, 0);
    AddToPlain(ns, path, [], hs, true);
    assert ns[0] == w && !Skipped(ns[0], path);
    assert Target(ns, path) == 0;
  }

  ghost predicate AllRoot(ws: seq<Node>) {
    forall i :: 0 <= i < |ws| ==> ws[i].rootWildcard
  }

  lemma {:induction false} TargetBehind(ws: seq<Node>, ns: seq<Node>, path: string)
    requires AllRoot(ws)
    ensures Target(ws + ns, path) == |ws| + Target(ns, path)
    decreases |ws|
  {
    if ws == [] {
      assert ws + ns == ns;
    } else {
      assert (ws + ns)[0] == ws[0] && (ws + ns)[1..] == ws[1..] + ns;
      TargetBehind(ws[1..], ns, path);
    }
  }

  /** Wildcards that take every path are stepped over by every insertion. */
  lemma MergeBehind(ws: seq<Node>, ns: seq<Node>, path: string, names: seq<string>, handlers: seq<Handler>)
    requires AllRoot(ws) && '*' !in path
    ensures AddTo(ws + ns, path, names, handlers, true) ==
              AddResult(ws + AddTo(ns, path, names, handlers, true).nodes, AddTo(ns, path, names, handlers, true).duplicate)
  {
    AddToPlain(ws + ns, path, names, handlers, true);
    AddToPlain(ns, path, names, handlers, true);
    TargetBehind(ws, ns, path);
    var i := Target(ns, path);
    if i < |ns| {
      assert (ws + ns)[|ws| + i] == ns[i];
      var m := MergeNode(ns[i], path, "", names, handlers).node;
      assert (ws + ns)[|ws| + i := m] == ws + ns[i := m];
    }
    var leaf := Node(path, "", names, handlers, [], true, false);
    assert ws + ns + [leaf] == ws + (ns + [leaf]);
  }

  lemma {:induction false} BoundariesBehind(ws: seq<Node>, ns: seq<Node>, path: string, ps: seq<nat>)
    requires AllRoot(ws) && '*' !in path && forall k :: 0 <= k < |ps| ==> ps[k] < |path|
    ensures AddBoundaries(ws + ns, path, ps) == ws + AddBoundaries(ns, path, ps)
    decreases |ps|
  {
    if ps != [] {
      var i := ps[0];
      NoStar(path, i);
      NoStar(path, i + 1);
      MergeBehind(ws, ns, path[..i], [], []);
      MergeBehind(ws, AddTo(ns, path[..i], [], [], true).nodes, path[..i + 1], [], []);
      BoundariesBehind(ws, Around(ns, path, i), path, ps[1..]);
    }
  }

  lemma InsertBehindRoots(ws: seq<Node>, ns: seq<Node>, path: string, handlers: seq<Handler>)
    requires AllRoot(ws) && '*' !in Strip(path).0
    ensures Insert(ws + ns, path, handlers) == AddResult(ws + Insert(ns, path, handlers).nodes, Insert(ns, path, handlers).duplicate)
  {
    var (pattern, names) := Strip(path);
    BoundariesBehind(ws, ns, pattern, ColonsFrom(pattern, 0));
    MergeBehind(ws, AddBoundaries(ns, pattern, ColonsFrom(pattern, 0)), pattern, names, handlers);
  }

  /** The order of the siblings before sorting does not matter. */
  lemma OrderAny(a: seq<Node>, b: seq<Node>, r: seq<Node>)
    requires multiset(a) == multiset(b) && Prioritized(a, r)
    ensures Prioritized(b, r)
  {
    var mid: seq<Node> :| Arranged(a, mid) && |mid| == |r| &&
      forall i :: 0 <= i < |mid| ==> mid[i] in a && PrioritizedNode(mid[i], r[i]);
    Rearrange.Same(b, a);
    Rearrange.Same(b, mid);
  }

  /** Nothing but wildcards that take every path. */
  ghost predicate Roots(ns: seq<Node>, wilds: multiset<Node>) {
    AllWild(ns) && AllRoot(ns) && multiset(ns) == wilds
  }

  lemma OrderWilds(ws: seq<Node>, r: seq<Node>)
    requires AllWild(ws) && Prioritized(ws, r)
    ensures AllWild(r) && multiset(r) == multiset(ws)
  {
    var mid: seq<Node> :| Arranged(ws, mid) && |mid| == |r| &&
      forall i :: 0 <= i < |mid| ==> mid[i] in ws && PrioritizedNode(mid[i], r[i]);
    forall i | 0 <= i < |r|
      ensures r[i] == mid[i] && IsWild(r[i])
    {
      var k :| 0 <= k < |ws| && ws[k] == mid[i];
      WildOrdered(mid[i], r[i]);
    }
    assert r == mid;
  }

  lemma AddRoot(ns: seq<Node>, wilds: multiset<Node>, reg: Registration, r: seq<Node>, name: string)
    requires Roots(ns, wilds) && WildPath(reg.path, "/", name) && reg.handlers != [] && Next(ns, reg, r)
    ensures Roots(r, wilds + multiset{WildNode("/", name, Strip(reg.path).1, reg.handlers)})
  {
    var w := WildNode("/", name, Strip(reg.path).1, reg.handlers);
    InsertWild(ns, reg.path, "/", name, reg.handlers);
    assert IsWild(w);
    OneMore(ns, w);
    RootsOrdered(ns + [w], r);
  }

  lemma RootsOrdered(ws: seq<Node>, r: seq<Node>)
    requires AllWild(ws) && AllRoot(ws) && Prioritized(ws, r)
    ensures Roots(r, multiset(ws))
  {
    OrderWilds(ws, r);
    Rearrange.Same(ws, r);
  }

  /** What one plain registration makes of an empty tree. */
  lemma FirstPlain(path: string, handlers: seq<Handler>)
    requires Plain(path)
    ensures var i := Insert([], path, handlers);
            && !i.duplicate && |i.nodes| == 1 && NodeShape(i.nodes[0], true) && i.nodes[0].s[0] == '/'
            && Shape(i.nodes, true) && Holds(i.nodes, Registered(map[], path, handlers), {Strip(path).0})
  {
    FirstHolds(path, handlers);
    var pattern := Strip(path).0;
    OneStart(Insert([], path, handlers).nodes, {pattern}, pattern);
  }

  lemma FirstHolds(path: string, handlers: seq<Handler>)
    requires Plain(path)
    ensures var i := Insert([], path, handlers);
            !i.duplicate && Shape(i.nodes, true) && Holds(i.nodes, Registered(map[], path, handlers), {Strip(path).0})
  {
    var (pattern, names) := Strip(path);
    var i := Insert([], path, handlers);
    StripSpec(path);
    InsertSpec([], path, handlers);
    FirstEntry(i.nodes, pattern, Entry(names, handlers));
    FirstBounds(i.nodes, pattern);
  }

  lemma FirstBounds(mid: seq<Node>, pattern: string)
    requires PatternShape(pattern) && Reach(mid, pattern)
    requires forall u :: Reach(mid, u) ==> Reach([], u) || Along([], pattern, u)
    ensures Bounds(mid, {pattern})
  {
    EmptyRepresents();
    assert forall u :: Reach([], u) ==> u == "";
    InsertBounds([], {}, mid, pattern);
    assert {} + {pattern} == {pattern};
  }

  lemma FirstEntry(mid: seq<Node>, pattern: string, entry: Entry)
    requires |entry.names| == Count(pattern, ':')
    requires forall key :: Get(mid, key) == if key == pattern && entry.handlers != [] then Some(entry) else None
    ensures Entries(mid, if entry.handlers == [] then map[] else map[][pattern := entry])
  {
    InsertEntries([], map[], mid, pattern, entry);
  }

  /** The first plain registration behind wildcards that take every path starts the plain tree. */
  lemma AddFirstBeside(ws: seq<Node>, wilds: multiset<Node>, reg: Registration, r: seq<Node>)
    requires Roots(ws, wilds) && Plain(reg.path) && Next(ws, reg, r)
    ensures Mixed(r, Registered(map[], reg.path, reg.handlers), {Strip(reg.path).0}, wilds)
  {
    var i := Insert([], reg.path, reg.handlers);
    FirstPlain(reg.path, reg.handlers);
    StripSpec(reg.path);
    InsertBehindRoots(ws, [], reg.path, reg.handlers);
    assert ws + [] == ws;
    FirstOrdered(ws, i.nodes, r);
    OrderHolds(i.nodes, Registered(map[], reg.path, reg.handlers), {Strip(reg.path).0}, [r[0]]);
  }

  lemma FirstOrdered(ws: seq<Node>, ns: seq<Node>, r: seq<Node>)
    requires AllWild(ws) && |ns| == 1 && NodeShape(ns[0], true) && ns[0].s[0] == '/'
    requires Prioritized(ws + ns, r)
    ensures r != [] && Prioritized(ns, [r[0]]) && AllWild(r[1..]) && multiset(r[1..]) == multiset(ws)
  {
    assert ns == [ns[0]];
    assert multiset(ws + ns) == multiset(ns + ws);
    OrderAny(ws + ns, ns + ws, r);
    OrderBeside(ns[0], ws, r);
  }


  // ------------------------------------- a wildcard that a later static path parts from

  /** What is left of a wildcard whose start has its first bytes moved to a parent. */
  function Rest(t: string, name: string, handlers: seq<Handler>): Node {
    Node(t, name, [], handlers, [], false, false)
  }

  function Leaf(u: string, handlers: seq<Handler>): Node {
    Node(u, "", [], handlers, [], false, false)
  }

  /** Two static texts behind a common start, of which the wildcard's goes on. */
  ghost predicate Parts(p: string, t: string, u: string) {
    && p != "" && p[0] == '/' && t != "" && t[|t| - 1] == '/' && ':' !in p + u && '*' !in p + u
    && (u != "" ==> u[0] != t[0])
  }

  lemma {:induction false} CommonIs(p: string, t: string, u: string)
    requires u != "" && t != "" ==> u[0] != t[0]
    ensures CommonPrefix(p + t, p + u) == |p|
  {
    if p == "" {
      assert p + t == t && p + u == u;
    } else {
      assert (p + t)[0] == p[0] == (p + u)[0] && (p + t)[1..] == p[1..] + t && (p + u)[1..] == p[1..] + u;
      CommonIs(p[1..], t, u);
    }
  }

  lemma InsertParts(p: string, t: string, u: string, name: string, handlers: seq<Handler>, hs: seq<Handler>)
    requires Parts(p, t, u) && name != ""
    ensures Insert([WildNode(p + t, name, [], handlers)], p + u, hs) == AddResult([
              if u == "" then Node(p, "", [], hs, [Rest(t, name, handlers)], true, false)
              else Node(p, "", [], [], [Rest(t, name, handlers), Leaf(u, hs)], true, false)], false)
  {
    var s, path := p + t, p + u;
    var w := WildNode(s, name, [], handlers);
    Reverse.StripNone(path);
    NoColons(path, 0);
    AddToPlain([w], path, [], hs, true);
    CommonIs(p, t, u);
    assert Target([w], path) == 0 && !(s < path);
    assert s[..|p|] == p && s[|p|..] == t && path[|p|..] == u;
    var m := MergeNode(w, path, "", [], hs).node;
    assert Lower(w, |p|) == Rest(t, name, handlers);
    if u == "" {
      assert path == p && m == Node(p, "", [], hs, [Rest(t, name, handlers)], true, false);
    } else {
      assert m == Node(p, "", [], [], [Rest(t, name, handlers), Leaf(u, hs)], true, false);
    }
    assert [w][0 := m] == [m];
  }

  /** Two leaves, the second static and the first not: the static one goes first. */
  lemma OrderTwo(a: Node, b: Node, r: seq<Node>)
    requires a.IsDynamic() && !b.IsDynamic() && a.children == [] && b.children == [] && Prioritized([a, b], r)
    ensures r == [b, a]
  {
    var mid: seq<Node> :| Arranged([a, b], mid) && |mid| == |r| &&
      forall i :: 0 <= i < |mid| ==> mid[i] in [a, b] && PrioritizedNode(mid[i], r[i]);
    TwoIs(a, b, mid);
    assert mid[0] == b && mid[1] == a;
    LeafOrdered(b, r[0]);
    LeafOrdered(a, r[1]);
  }

  lemma TwoIs(a: Node, b: Node, mid: seq<Node>)
    requires a.IsDynamic() && !b.IsDynamic() && Arranged([a, b], mid)
    ensures mid == [b, a]
  {
    Rearrange.Same(mid, [a, b]);
    Rearrange.Same([a, b], mid);
    assert [a, b][0] == a && [a, b][1] == b && a in mid && b in mid;
    assert Less(b, a) && !Less(mid[1], mid[0]);
  }

  lemma LeafOrdered(n: Node, r: Node)
    requires n.children == [] && PrioritizedNode(n, r)
    ensures r == n
  {
    NoneOrdered(r.children);
  }

  lemma OrderOne(a: Node, r: seq<Node>)
    requires Prioritized([a], r)
    ensures |r| == 1 && PrioritizedNode(a, r[0])
  {
    var mid: seq<Node> :| Arranged([a], mid) && |mid| == |r| &&
      forall i :: 0 <= i < |mid| ==> mid[i] in [a] && PrioritizedNode(mid[i], r[i]);
    Rearrange.Same([a], mid);
  }

  lemma OrderParted(p: string, hs: seq<Handler>, low: Node, leaf: Node, r: seq<Node>)
    requires low.IsDynamic() && !leaf.IsDynamic() && low.children == leaf.children == []
    ensures Prioritized([Node(p, "", [], hs, [low], true, false)], r) ==> r == [Node(p, "", [], hs, [low], true, false)]
    ensures Prioritized([Node(p, "", [], hs, [low, leaf], true, false)], r) ==> r == [Node(p, "", [], hs, [leaf, low], true, false)]
  {
    var one, two := Node(p, "", [], hs, [low], true, false), Node(p, "", [], hs, [low, leaf], true, false);
    if Prioritized([one], r) {
      OrderOne(one, r);
      OrderOne(low, r[0].children);
      LeafOrdered(low, r[0].children[0]);
      assert r == [r[0]] && r[0].children == [low];
    }
    if Prioritized([two], r) {
      OrderOne(two, r);
      OrderTwo(low, leaf, r[0].children);
      assert r == [r[0]];
    }
  }

  /** A static path registered behind a wildcard, parting inside its start or ending there, takes the wildcard's node
      apart; both are served afterwards. */
  lemma PartedServes(p: string, t: string, u: string, name: string, handlers: seq<Handler>, hs: seq<Handler>, r: seq<Node>,
                     rest: string)
    requires Parts(p, t, u) && name != "" && handlers != [] && hs != [] && rest != ""
    requires Next([WildNode(p + t, name, [], handlers)], Registration(p + u, hs), r)
    ensures Labelled(r)
    ensures FindChild(r, p + t + rest, []) == Found(Rest(t, name, handlers), [rest])
    ensures FindChild(r, p + u, []).Found? && FindChild(r, p + u, []).node.handlers == hs && FindChild(r, p + u, []).values == []
  {
    var low, leaf := Rest(t, name, handlers), Leaf(u, hs);
    InsertParts(p, t, u, name, handlers, hs);
    if u == "" {
      OrderParted(p, hs, low, leaf, r);
    } else {
      assert u != ":";
      OrderParted(p, [], low, leaf, r);
    }
    FindParted(r, p, t, u, low, leaf, rest);
  }

  lemma FindParted(r: seq<Node>, p: string, t: string, u: string, low: Node, leaf: Node, rest: string)
    requires Parts(p, t, u) && low.wildcardName != "" && low == Rest(t, low.wildcardName, low.handlers) && low.handlers != []
    requires leaf == Leaf(u, leaf.handlers) && leaf.handlers != [] && rest != ""
    requires r == [if u == "" then Node(p, "", [], leaf.handlers, [low], true, false) else Node(p, "", [], [], [leaf, low], true, false)]
    ensures Labelled(r)
    ensures FindChild(r, p + t + rest, []) == Found(low, [rest])
    ensures FindChild(r, p + u, []).Found? && FindChild(r, p + u, []).node.handlers == leaf.handlers && FindChild(r, p + u, []).values == []
  {
    FindLow(t, low, rest);
    FindBoth(t, u, low, leaf, rest);
    var below := r[0].children;
    assert (p + t + rest)[|p|..] == t + rest && (p + u)[|p|..] == u;
    assert r[1..] == [] && p != ":";
  }

  lemma FindLow(t: string, low: Node, rest: string)
    requires t != "" && t[|t| - 1] == '/' && low == Rest(t, low.wildcardName, low.handlers) && low.handlers != [] && rest != ""
    ensures Labelled([low]) && FindChild([low], t + rest, []) == Found(low, [rest])
  {
    var none: seq<string> := [];
    assert (t + rest)[|t|..] == rest && none + [rest] == [rest] && [low][1..] == [];
    assert t != ":" && low.s <= t + rest;
    assert FindChild(low.children, rest, none) == Missing;
    assert TryOne(low, t + rest, none) == Stop(Found(low, none + [rest]));
  }

  lemma FindBoth(t: string, u: string, low: Node, leaf: Node, rest: string)
    requires t != "" && t[|t| - 1] == '/' && (u != "" ==> u[0] != t[0] && ':' !in u)
    requires low == Rest(t, low.wildcardName, low.handlers) && low.handlers != [] && rest != ""
    requires leaf == Leaf(u, leaf.handlers) && leaf.handlers != []
    ensures u != "" ==> Labelled([leaf, low]) && FindChild([leaf, low], t + rest, []) == Found(low, [rest])
                        && FindChild([leaf, low], u, []) == Found(leaf, [])
  {
    if u != "" {
      FindLow(t, low, rest);
      assert [leaf, low][0] == leaf && [leaf, low][1..] == [low];
      assert !(u <= t + rest) && u != ":";
    }
  }

  // ------------------------------------------------------------------- whole runs

  ghost predicate IsWildReg(reg: Registration) {
    var pattern := Strip(reg.path).0;
    var w := Upto(pattern, '*');
    w < |pattern| && WildPath(reg.path, pattern[..w], pattern[w + 1..]) && reg.handlers != []
  }

  /** What stands before the wildcard. */
  function StartOf(reg: Registration): string {
    Strip(reg.path).0[..Upto(Strip(reg.path).0, '*')]
  }

  /** The node of a wildcard registration. */
  function WildOf(reg: Registration): Node {
    var pattern := Strip(reg.path).0;
    var w := Upto(pattern, '*');
    WildNode(StartOf(reg), if w < |pattern| then pattern[w + 1..] else "", Strip(reg.path).1, reg.handlers)
  }

  ghost predicate Sorts(regs: seq<Registration>) {
    forall i :: 0 <= i < |regs| ==> Plain(regs[i].path) || IsWildReg(regs[i])
  }

  /** The registrations that are no wildcards, in order. */
  ghost function Plains(regs: seq<Registration>): (r: seq<Registration>)
    ensures forall i :: 0 <= i < |r| ==> r[i] in regs && !IsWildReg(r[i])
  {
    if regs == [] then []
    else Plains(regs[..|regs| - 1]) + if IsWildReg(regs[|regs| - 1]) then [] else [regs[|regs| - 1]]
  }

  ghost function Wilds(regs: seq<Registration>): multiset<Node> {
    if regs == [] then multiset{}
    else Wilds(regs[..|regs| - 1]) + if IsWildReg(regs[|regs| - 1]) then multiset{WildOf(regs[|regs| - 1])} else multiset{}
  }

  /** The patterns offered by the plain registrations, and by the starts of the wildcards. */
  ghost function Offered(regs: seq<Registration>): set<string> {
    if regs == [] then {}
    else
      var last := regs[|regs| - 1];
      Offered(regs[..|regs| - 1]) + if IsWildReg(last) then Marks(StartOf(last)) else {Strip(last.path).0}
  }

  lemma PlainsLast(regs: seq<Registration>)
    requires regs != [] && !IsWildReg(regs[|regs| - 1])
    ensures var last, before := regs[|regs| - 1], Plains(regs[..|regs| - 1]);
            TableOf(Plains(regs)) == Registered(TableOf(before), last.path, last.handlers)
  {
    var last, before := regs[|regs| - 1], Plains(regs[..|regs| - 1]);
    assert (before + [last])[..|before|] == before;
  }

  /** Every wildcard before the first plain registration takes every path. */
  ghost predicate Ahead(regs: seq<Registration>) {
    forall i :: 0 <= i < |regs| && IsWildReg(regs[i]) && Plains(regs[..i]) == [] ==> WildOf(regs[i]).rootWildcard
  }

  lemma AheadBefore(regs: seq<Registration>, n: nat)
    requires Ahead(regs) && Sorts(regs) && n <= |regs|
    ensures Ahead(regs[..n]) && Sorts(regs[..n])
  {
    var before := regs[..n];
    forall i | 0 <= i < n && IsWildReg(before[i]) && Plains(before[..i]) == []
      ensures WildOf(before[i]).rootWildcard
    {
      assert before[..i] == regs[..i] && before[i] == regs[i];
    }
  }

  /** The tree of a run: the plain tree with the wildcards behind, or the wildcards alone. */
  ghost predicate RunTree(regs: seq<Registration>, r: seq<Node>) {
    if Plains(regs) == [] then Roots(r, Wilds(regs)) && Offered(regs) == {}
    else Mixed(r, TableOf(Plains(regs)), Offered(regs), Wilds(regs))
  }

  /** After any registrations, the tree is that of the plain ones, with the wildcards behind, if the wildcards
      registered before all plain routes take every path. */
  lemma {:induction false} RunMixed(regs: seq<Registration>, r: seq<Node>)
    requires Run(regs, r) && Sorts(regs) && Ahead(regs)
    ensures RunTree(regs, r)
    decreases |regs|
  {
    if regs != [] {
      var n := |regs| - 1;
      var before, last := regs[..n], regs[n];
      var ns :| Run(before, ns) && Next(ns, last, r);
      AheadBefore(regs, n);
      RunMixed(before, ns);
      if IsWildReg(last) {
        NextWild(before, ns, last, r);
        assert Plains(regs) == Plains(before) + [] == Plains(before);
      } else {
        NextPlain(before, ns, last, r);
        PlainsLast(regs);
        assert Wilds(regs) == Wilds(before) + multiset{} == Wilds(before);
      }
    }
  }

  /** So in the tree of any such run: by the plain registrations alone, and else by the wildcards. */
  lemma RunMixedExact(regs: seq<Registration>, r: seq<Node>, path: string)
    requires Run(regs, r) && Sorts(regs) && Ahead(regs) && path != ""
    requires Plains(regs) != [] && Served(TableOf(Plains(regs)), Offered(regs)) && CleanTable(TableOf(Plains(regs)))
    ensures Labelled(r) && r != [] && multiset(r[1..]) == Wilds(regs)
    ensures MixedAnswer(r, TableOf(Plains(regs)), Offered(regs), path, FindChild(r, path, []))
  {
    RunMixed(regs, r);
    LookupMixed(r, TableOf(Plains(regs)), Offered(regs), Wilds(regs), path);
  }

  /** And where there are wildcards only, all of which take every path: the first one, for every path. */
  lemma RunWildOnly(regs: seq<Registration>, r: seq<Node>, path: string)
    requires Run(regs, r) && Sorts(regs) && Ahead(regs) && Plains(regs) == [] && regs != []
    ensures Labelled(r) && r != [] && multiset(r) == Wilds(regs) && FindChild(r, path, []) == Found(r[0], WildValues(r[0], path))
  {
    RunMixed(regs, r);
    WildLabelled(r);
    WildsSome(regs);
    assert r[0].rootWildcard;
    FindWild(r, path, 0);
  }

  lemma WildsSome(regs: seq<Registration>)
    requires regs != [] && Plains(regs) == []
    ensures Wilds(regs) != multiset{}
  {
    assert WildOf(regs[|regs| - 1]) in Wilds(regs);
  }

  lemma NextWild(before: seq<Registration>, ns: seq<Node>, last: Registration, r: seq<Node>)
    requires RunTree(before, ns) && IsWildReg(last) && Next(ns, last, r)
    requires Plains(before) == [] ==> WildOf(last).rootWildcard
    ensures if Plains(before) == [] then Roots(r, Wilds(before) + multiset{WildOf(last)}) && Offered(before) + Marks(StartOf(last)) == {}
            else Mixed(r, TableOf(Plains(before)), Offered(before) + Marks(StartOf(last)), Wilds(before) + multiset{WildOf(last)})
  {
    var pattern := Strip(last.path).0;
    var w := Upto(pattern, '*');
    var s, name := pattern[..w], pattern[w + 1..];
    if Plains(before) == [] {
      assert s == "/" && ':' !in s;
      AddRoot(ns, Wilds(before), last, r, name);
    } else {
      AddWildBeside(ns, TableOf(Plains(before)), Offered(before), Wilds(before), last, r, s, name);
    }
  }

  lemma NextPlain(before: seq<Registration>, ns: seq<Node>, last: Registration, r: seq<Node>)
    requires RunTree(before, ns) && Plain(last.path) && Next(ns, last, r)
    ensures Mixed(r, Registered(TableOf(Plains(before)), last.path, last.handlers),
                  Offered(before) + {Strip(last.path).0}, Wilds(before))
  {
    if Plains(before) == [] {
      assert {} + {Strip(last.path).0} == {Strip(last.path).0};
      AddFirstBeside(ns, Wilds(before), last, r);
    } else {
      AddPlainBeside(ns, TableOf(Plains(before)), Offered(before), Wilds(before), last, r);
    }
  }

  // ---------------------------------------------------------------- and back to a path

  ghost predicate Fixed(seg: string) {
    seg != "" && '/' !in seg && ':' !in seg && '*' !in seg && !Contains(seg, "%v")
  }

  lemma {:induction false} FormatFixed(segs: seq<string>, last: string)
    requires (forall i :: 0 <= i < |segs| ==> Fixed(segs[i])) && last != "" && last[0] == '*'
    ensures Reverse.FormatParts(segs + [last]) == segs + ["%v"]
    decreases |segs|
  {
    if segs == [] {
      assert segs + [last] == [last] && [last][1..] == [];
    } else {
      var all := segs + [last];
      assert all[0] == segs[0] && all[1..] == segs[1..] + [last];
      FormatFixed(segs[1..], last);
      assert Fixed(segs[0]) && segs[0][0] in segs[0];
      assert [segs[0]] + (segs[1..] + ["%v"]) == segs + ["%v"];
    }
  }

  /** The format of a wildcard's path has a mark in the place of the wildcard. */
  lemma WildFormatted(segs: seq<string>, name: string)
    requires (forall i :: 0 <= i < |segs| ==> Fixed(segs[i])) && '/' !in name
    ensures Reverse.Formatted(PathOf(segs + ["*" + name])) == PathOf(segs + ["%v"])
  {
    var last := "*" + name;
    FixedSegs(segs, last);
    FormatFixed(segs, last);
    FormatSplit(segs + [last], segs + ["%v"]);
  }

  lemma FixedSegs(segs: seq<string>, last: string)
    requires (forall i :: 0 <= i < |segs| ==> Fixed(segs[i])) && last != "" && last[0] == '*' && '/' !in last
    ensures Segs(segs + [last]) && '*' in PathOf(segs + [last])
  {
    var all := segs + [last];
    forall i | 0 <= i < |all|
      ensures '/' !in all[i]
    {
      assert i < |segs| ==> all[i] == segs[i] && Fixed(segs[i]);
    }
    StarStands(segs, last);
  }

  lemma StarStands(segs: seq<string>, last: string)
    requires last != "" && last[0] == '*'
    ensures '*' in PathOf(segs + [last])
  {
    LastOf(segs, last);
    assert PathOf(segs + [last])[|PathOf(segs)| + 1] == '*';
  }

  lemma FormatSplit(all: seq<string>, formatted: seq<string>)
    requires Segs(all) && '*' in PathOf(all) && Reverse.FormatParts(all) == formatted != []
    ensures Reverse.Formatted(PathOf(all)) == PathOf(formatted)
  {
    SplitPath("", all);
    assert "" + PathOf(all) == PathOf(all) && ([""] + all)[1..] == all;
    JoinPath(formatted);
  }

  /** A named wildcard resolves to its first argument behind the static start. */
  lemma WildResolved(segs: seq<string>, name: string, args: seq<string>, sprintf: (string, string) -> string)
    requires (forall i :: 0 <= i < |segs| ==> Fixed(segs[i])) && '/' !in name && name != "" && name[|name| - 1] != '*'
    requires |args| == 1
    ensures var path := PathOf(segs + ["*" + name]);
            Reverse.Resolved(path, Reverse.Formatted(path), args, Join(args, '/'), sprintf) == PathOf(segs + [args[0]])
  {
    var path, format := PathOf(segs + ["*" + name]), PathOf(segs + ["%v"]);
    WildFormatted(segs, name);
    MarkDiffers(segs, name);
    FixedFilled(segs, args);
  }

  lemma MarkDiffers(segs: seq<string>, name: string)
    ensures var path := PathOf(segs + ["*" + name]);
            path != "" && path != PathOf(segs + ["%v"]) && path[|path| - 1] == if name == "" then '*' else name[|name| - 1]
  {
    LastOf(segs, "*" + name);
    LastOf(segs, "%v");
    var path, format := PathOf(segs + ["*" + name]), PathOf(segs + ["%v"]);
    assert path[|PathOf(segs)| + 1] == '*' && format[|PathOf(segs)| + 1] == '%';
  }

  lemma FixedFilled(segs: seq<string>, args: seq<string>)
    requires (forall i :: 0 <= i < |segs| ==> Fixed(segs[i])) && |args| == 1
    ensures Reverse.FillMarks(PathOf(segs + ["%v"]), args) == PathOf(segs + [args[0]])
  {
    assert forall i :: 0 <= i < |segs| ==> Fixed(segs[i]);
    Reverse.FillOne(segs, [], args);
    OneMark(segs, "%v");
    OneMark(segs, args[0]);
    assert args[1..] == [];
  }

  lemma OneMark(segs: seq<string>, x: string)
    ensures segs + ([x] + []) == segs + [x] && segs + [x] + [] == segs + [x]
  {
  }

  lemma LastOf(segs: seq<string>, last: string)
    ensures PathOf(segs + [last]) == PathOf(segs) + ("/" + last)
  {
    PathOfConcat(segs, [last]);
    assert PathOf([last]) == "/" + (last + "") && last + "" == last;
  }

  /** One without a name resolves to all its arguments, joined. */
  lemma StarResolved(segs: seq<string>, args: seq<string>, sprintf: (string, string) -> string)
    requires forall i :: 0 <= i < |segs| ==> Fixed(segs[i])
    requires sprintf(PathOf(segs + ["%v"]), Join(args, '/')) == PathOf(segs + [Join(args, '/')])
    ensures var path := PathOf(segs + ["*"]);
            Reverse.Resolved(path, Reverse.Formatted(path), args, Join(args, '/'), sprintf) == PathOf(segs + [Join(args, '/')])
  {
    WildFormatted(segs, "");
    MarkDiffers(segs, "");
    assert "*" + "" == "*";
  }
}
