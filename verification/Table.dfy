/** The table of patterns a tree stands for, over whole runs of registrations. */
module RouteTable {
  import opened Options
  import opened Text
  import opened Patterns
  import opened RouteTree
  import opened RouteInsert
  import opened RouteOrder
  import opened RouteFind

  type Table = map<string, Entry>

  /** A path the table theorems speak about: absolute, and its pattern has no `*`. */
  predicate Plain(path: string) {
    path != "" && path[0] == '/' && '*' !in Strip(path).0
  }

  ghost predicate PatternShape(p: string) {
    p != "" && p[0] == '/' && Normal(p)
  }

  /** `ns` holds exactly the entries of `table`, and its node boundaries are those of `patterns`,
      all the patterns offered so far. */
  ghost predicate Represents(ns: seq<Node>, table: Table, patterns: set<string>) {
    Shape(ns, true) && Sorted(ns) && Holds(ns, table, patterns)
  }

  ghost predicate Holds(ns: seq<Node>, table: Table, patterns: set<string>) {
    Entries(ns, table) && Bounds(ns, patterns) && table.Keys <= patterns
  }

  /** The entries are those of the table, each with one name for each `:`. */
  ghost predicate Entries(ns: seq<Node>, table: Table) {
    && (forall key :: Get(ns, key) == if key in table then Some(table[key]) else None)
    && (forall key :: key in table ==> table[key].handlers != [] && |table[key].names| == Count(key, ':'))
  }

  /** Nodes end only at the boundaries of the patterns. */
  ghost predicate Bounds(ns: seq<Node>, patterns: set<string>) {
    && (forall p :: p in patterns ==> PatternShape(p) && Reach(ns, p))
    && (forall u :: Reach(ns, u) ==> Boundary(patterns, u))
  }

  /** A boundary of the patterns: the end of one, a side of a `:` of one, or a point where two part. */
  ghost predicate Boundary(patterns: set<string>, u: string) {
    || u == ""
    || (exists p :: p in patterns && EndsAt(p, u))
    || (exists p, q :: p in patterns && q in patterns && PartAt(p, q, u))
  }

  ghost predicate Covered(u: string, patterns: set<string>) {
    exists p :: p in patterns && u <= p
  }

  lemma BoundaryCovered(patterns: set<string>, u: string)
    requires Boundary(patterns, u) && u != ""
    ensures Covered(u, patterns)
  {
    if p :| p in patterns && EndsAt(p, u) {
      EndsPrefix(p, u);
    }
  }

  lemma BoundaryMore(patterns: set<string>, more: set<string>, u: string)
    requires Boundary(patterns, u) && patterns <= more
    ensures Boundary(more, u)
  {
    if u != "" {
      if p :| p in patterns && EndsAt(p, u) {
        assert p in more;
      } else {
        var p, q :| p in patterns && q in patterns && PartAt(p, q, u);
        assert p in more && q in more;
      }
    }
  }

  /** What inserting a pattern adds is a boundary of the patterns with it. */
  lemma AlongBoundary(ns: seq<Node>, patterns: set<string>, pattern: string, u: string)
    requires Bounds(ns, patterns) && Along(ns, pattern, u)
    ensures Boundary(patterns + {pattern}, u)
  {
    var more := patterns + {pattern};
    assert pattern in more;
    if !EndsAt(pattern, u) {
      var w :| Reach(ns, w) && PartAt(w, pattern, u);
      BoundaryCovered(patterns, w);
      var p :| p in patterns && w <= p;
      PartLonger(w, pattern, p, pattern, u);
      assert p in more && PartAt(p, pattern, u);
    }
  }

  /** What a registration makes of the table. */
  function Registered(table: Table, path: string, handlers: seq<Handler>): Table {
    var (pattern, names) := Strip(path);
    if handlers == [] || pattern in table then table else table[pattern := Entry(names, handlers)]
  }

  lemma EmptyRepresents()
    ensures Represents([], map[], {})
  {
  }

  lemma InsertEntries(ns: seq<Node>, table: Table, mid: seq<Node>, pattern: string, entry: Entry)
    requires Entries(ns, table) && |entry.names| == Count(pattern, ':')
    requires forall key :: Get(mid, key) ==
               if key == pattern && entry.handlers != [] && pattern !in table then Some(entry) else Get(ns, key)
    ensures Entries(mid, if entry.handlers == [] || pattern in table then table else table[pattern := entry])
  {
    var t := if entry.handlers == [] || pattern in table then table else table[pattern := entry];
    forall key
      ensures Get(mid, key) == if key in t then Some(t[key]) else None
      ensures key in t ==> t[key].handlers != [] && |t[key].names| == Count(key, ':')
    {
    }
  }

  lemma InsertBounds(ns: seq<Node>, patterns: set<string>, mid: seq<Node>, pattern: string)
    requires Bounds(ns, patterns) && PatternShape(pattern)
    requires Reach(mid, pattern) && forall u :: Reach(ns, u) ==> Reach(mid, u)
    requires forall u :: Reach(mid, u) ==> Reach(ns, u) || Along(ns, pattern, u)
    ensures Bounds(mid, patterns + {pattern})
  {
    forall u | Reach(mid, u)
      ensures Boundary(patterns + {pattern}, u)
    {
      if Reach(ns, u) {
        BoundaryMore(patterns, patterns + {pattern}, u);
      } else {
        AlongBoundary(ns, patterns, pattern, u);
      }
    }
  }

  lemma OrderHolds(mid: seq<Node>, table: Table, patterns: set<string>, r: seq<Node>)
    requires Shape(mid, true) && Holds(mid, table, patterns) && Prioritized(mid, r)
    ensures Represents(r, table, patterns)
  {
    PrioritizedShape(mid, true, r);
    forall key
      ensures Get(r, key) == Get(mid, key) && Reach(r, key) == Reach(mid, key)
    {
      PrioritizedGet(mid, true, r, key);
    }
  }

  /** One registration: the table gains the new entry, or an error is returned and the tree stays as it is. */
  lemma AddKeeps(ns: seq<Node>, table: Table, patterns: set<string>, path: string, handlers: seq<Handler>, r: seq<Node>)
    requires Represents(ns, table, patterns) && Plain(path)
    requires var i := Insert(ns, path, handlers); if i.duplicate then r == i.nodes else Prioritized(i.nodes, r)
    ensures Represents(r, Registered(table, path, handlers), patterns + {Strip(path).0})
    ensures Insert(ns, path, handlers).duplicate == (handlers != [] && Strip(path).0 in table)
    ensures Insert(ns, path, handlers).duplicate ==> r == ns
  {
    var (pattern, names) := Strip(path);
    StripSpec(path);
    InsertSpec(ns, path, handlers);
    var i := Insert(ns, path, handlers);
    assert Get(ns, pattern).Some? == (pattern in table);
    InsertEntries(ns, table, i.nodes, pattern, Entry(names, handlers));
    InsertBounds(ns, patterns, i.nodes, pattern);
    if !i.duplicate {
      OrderHolds(i.nodes, Registered(table, path, handlers), patterns + {pattern}, r);
    }
  }

  // ------------------------------------------------------ patterns that do not overlap

  ghost predicate NoClash(patterns: set<string>) {
    forall a, b :: a in patterns && b in patterns ==> !Clash(a, b)
  }

  ghost predicate ReachApart(ns: seq<Node>) {
    forall a, b :: Reach(ns, a) && Reach(ns, b) ==> !Clash(a, b)
  }

  lemma ReachBelow(ns: seq<Node>, root: bool, i: nat, key: string)
    requires Shape(ns, root) && i < |ns|
    ensures Reach(ns, ns[i].s + key) == Reach(ns[i].children, key)
  {
    assert NodeShape(ns[i], root);
    Only(ns, ns[i].s + key, i);
    assert (ns[i].s + key)[|ns[i].s|..] == key;
  }

  lemma ReachApartBelow(ns: seq<Node>, root: bool, i: nat)
    requires Shape(ns, root) && ReachApart(ns) && i < |ns|
    ensures ReachApart(ns[i].children)
  {
    var n := ns[i];
    forall a, b | Reach(n.children, a) && Reach(n.children, b)
      ensures !Clash(a, b)
    {
      ReachBelow(ns, root, i, a);
      ReachBelow(ns, root, i, b);
      if Clash(a, b) {
        ClashBelow(n.s, a, b);
      }
    }
  }

  lemma ReachApartHere(ns: seq<Node>, root: bool, i: nat, j: nat)
    requires Shape(ns, root) && ReachApart(ns) && i < |ns| && j < |ns| && ns[i].s == ":"
    ensures ns[j].s == ":"
  {
    assert NodeShape(ns[j], root);
    ReachBelow(ns, root, i, "");
    ReachBelow(ns, root, j, "");
    assert ns[i].s + "" == ":" && ns[j].s + "" == ns[j].s;
    assert ClashAt(":", ns[j].s, 0) == (ns[j].s[0] != ':');
    assert !Clash(":", ns[j].s);
  }

  lemma {:induction false} ApartIfReachApart(ns: seq<Node>, root: bool)
    requires Shape(ns, root) && ReachApart(ns)
    ensures Apart(ns)
    decreases ns
  {
    forall i, j | 0 <= i < |ns| && 0 <= j < |ns| && ns[i].s == ":"
      ensures ns[j].s == ":"
    {
      ReachApartHere(ns, root, i, j);
    }
    forall i | 0 <= i < |ns|
      ensures Apart(ns[i].children)
    {
      assert NodeShape(ns[i], root);
      ReachApartBelow(ns, root, i);
      ApartIfReachApart(ns[i].children, false);
    }
  }

  lemma {:induction false} ApartNoClash(ns: seq<Node>, root: bool, a: string, b: string, j: nat)
    requires Shape(ns, root) && Apart(ns) && Reach(ns, a) && Reach(ns, b)
    ensures !ClashAt(a, b, j)
    decreases ns
  {
    if ClashAt(a, b, j) {
      var i, k := Match(ns, a), Match(ns, b);
      var n := ns[i];
      assert NodeShape(n, root) && NodeShape(ns[k], root);
      if j >= |n.s| {
        assert n.s <= b by {
          assert n.s == a[..j][..|n.s|] == b[..j][..|n.s|];
        }
        Only(ns, b, i);
        var a', b' := a[|n.s|..], b[|n.s|..];
        assert a'[..j - |n.s|] == a[..j][|n.s|..] && b'[..j - |n.s|] == b[..j][|n.s|..];
        ApartNoClash(n.children, false, a', b', j - |n.s|);
      }
    }
  }

  lemma PrefixClash(a: string, b: string, p: string, q: string)
    requires Clash(a, b) && a <= p && b <= q
    ensures Clash(p, q)
  {
    var j: nat :| ClashAt(a, b, j);
    assert p[..j] == a[..j] && q[..j] == b[..j];
    assert ClashAt(p, q, j);
  }

  lemma NoClashReach(ns: seq<Node>, patterns: set<string>)
    requires Bounds(ns, patterns) && NoClash(patterns)
    ensures ReachApart(ns)
  {
    forall a, b | Reach(ns, a) && Reach(ns, b)
      ensures !Clash(a, b)
    {
      if a != "" && b != "" && Clash(a, b) {
        BoundaryCovered(patterns, a);
        BoundaryCovered(patterns, b);
        var p :| p in patterns && a <= p;
        var q :| q in patterns && b <= q;
        PrefixClash(a, b, p, q);
      }
    }
  }

  /** In the tree a `:` and a static sibling meet exactly when two offered patterns clash. */
  lemma ApartIff(ns: seq<Node>, table: Table, patterns: set<string>)
    requires Represents(ns, table, patterns)
    ensures Apart(ns) <==> NoClash(patterns)
  {
    if NoClash(patterns) {
      NoClashReach(ns, patterns);
      ApartIfReachApart(ns, true);
    }
    if Apart(ns) {
      forall a, b | a in patterns && b in patterns
        ensures !Clash(a, b)
      {
        assert Reach(ns, a) && Reach(ns, b);
        forall j: nat
          ensures !ClashAt(a, b, j)
        {
          ApartNoClash(ns, true, a, b, j);
        }
      }
    }
  }
}
