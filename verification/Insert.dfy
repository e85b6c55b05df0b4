/** Registering a whole path: its boundaries, the path itself, and the new order of siblings. */
module RouteInsert {
  import opened Options
  import opened Text
  import opened Patterns
  import opened RouteTree

  /** The positions from `i` on where `path` has a `:`. */
  function ColonsFrom(path: string, i: nat): (ps: seq<nat>)
    ensures forall k :: 0 <= k < |ps| ==> i <= ps[k] < |path| && path[ps[k]] == ':'
    decreases |path| - i
  {
    if i >= |path| then []
    else (if path[i] == ':' then [i] else []) + ColonsFrom(path, i + 1)
  }

  /** The two boundaries around the `:` at `i`. */
  function Around(ns: seq<Node>, path: string, i: nat): seq<Node>
    requires i < |path|
  {
    var before := AddTo(ns, path[..i], [], [], true).nodes;
    if i + 1 < |path| then AddTo(before, path[..i + 1], [], [], true).nodes else before
  }

  /** Make a node end on both sides of every listed `:`. */
  function AddBoundaries(ns: seq<Node>, path: string, ps: seq<nat>): seq<Node>
    requires forall k :: 0 <= k < |ps| ==> ps[k] < |path|
    decreases |ps|
  {
    if ps == [] then ns else AddBoundaries(Around(ns, path, ps[0]), path, ps[1..])
  }

  /** `Add` up to the final ordering. */
  function Insert(ns: seq<Node>, path: string, handlers: seq<Handler>): AddResult {
    var (pattern, names) := Strip(path);
    AddTo(AddBoundaries(ns, pattern, ColonsFrom(pattern, 0)), pattern, names, handlers, true)
  }

  /** Every `:` of `path` before `i` has node boundaries on both sides. */
  ghost predicate ReadyTo(ns: seq<Node>, path: string, i: nat) {
    forall j :: 0 <= j < i && j < |path| && path[j] == ':' ==>
      Reach(ns, path[..j]) && (j + 1 < |path| ==> Reach(ns, path[..j + 1]))
  }

  /** `path` makes a node end behind `u`: its own end, or a side of one of its `:`s. */
  ghost predicate EndsAt(path: string, u: string) {
    u == path || exists j :: 0 <= j < |path| && path[j] == ':' && (u == path[..j] || u == path[..j + 1])
  }

  /** A boundary that inserting `path` may add to `ns`: one of its own, or where it parts from an old one. */
  ghost predicate Along(ns: seq<Node>, path: string, u: string) {
    EndsAt(path, u) || exists w :: Reach(ns, w) && PartAt(w, path, u)
  }

  /** `r` holds the table of `ns`, and its new boundaries are those of `path`. */
  ghost predicate Extends(ns: seq<Node>, r: seq<Node>, path: string) {
    && Shape(r, true)
    && (forall key :: Get(r, key) == Get(ns, key))
    && (forall key :: Reach(ns, key) ==> Reach(r, key))
    && (forall key :: Reach(r, key) ==> Reach(ns, key) || Along(ns, path, key))
  }

  lemma EndsPrefix(path: string, u: string)
    requires EndsAt(path, u)
    ensures u <= path
  {
  }

  lemma EndsSide(path: string, j: nat)
    requires j < |path| && path[j] == ':'
    ensures EndsAt(path, path[..j]) && EndsAt(path, path[..j + 1])
  {
  }

  lemma NoStar(path: string, j: nat)
    requires '*' !in path && j <= |path|
    ensures '*' !in path[..j]
  {
  }

  /** Adding one boundary along a path. */
  lemma AddBoundary(ns: seq<Node>, path: string, j: nat)
    requires Shape(ns, true) && 0 < j <= |path| && '*' !in path && Ready(ns, path[..j]) && EndsAt(path, path[..j])
    ensures var r := AddTo(ns, path[..j], [], [], true);
            !r.duplicate && Extends(ns, r.nodes, path) && Reach(r.nodes, path[..j])
  {
    var part := path[..j];
    NoStar(path, j);
    var r := Merge(ns, part, "", [], [], true);
    AddToPlain(ns, part, [], [], true);
    ShapeAfterMerge(ns, true, part, [], []);
    forall key
      ensures Get(r.nodes, key) == Get(ns, key)
      ensures Reach(ns, key) ==> Reach(r.nodes, key)
      ensures Reach(r.nodes, key) ==> Reach(ns, key) || Along(ns, path, key)
    {
      GetAfterMerge(ns, true, part, [], [], key);
      ReachAfterMerge(ns, true, part, [], [], key);
      if Reach(r.nodes, key) && !Reach(ns, key) && key != part {
        var w := ReachNew(ns, true, part, [], [], key);
        PartLonger(w, part, w, path, key);
      }
    }
    GetAfterMerge(ns, true, part, [], [], part);
    ReachAfterMerge(ns, true, part, [], [], part);
  }

  lemma ExtendsTwice(a: seq<Node>, b: seq<Node>, c: seq<Node>, path: string)
    requires Extends(a, b, path) && Extends(b, c, path)
    ensures Extends(a, c, path)
  {
    forall key | Reach(c, key)
      ensures Reach(a, key) || Along(a, path, key)
    {
      if !Reach(a, key) && !EndsAt(path, key) && Along(b, path, key) && !Reach(b, key) {
        var w :| Reach(b, w) && PartAt(w, path, key);
        OldPart(a, b, path, w, key);
      }
    }
  }

  /** What parts from the path is no boundary along it. */
  lemma OldPart(a: seq<Node>, b: seq<Node>, path: string, w: string, key: string)
    requires Extends(a, b, path) && Reach(b, w) && PartAt(w, path, key)
    ensures Reach(a, w)
  {
    if EndsAt(path, w) {
      EndsPrefix(path, w);
    }
  }

  /** The part of a path before a boundary, or up to the `:` behind one, is ready. */
  lemma ReadyPart(ns: seq<Node>, path: string, i: nat, n: nat)
    requires ReadyTo(ns, path, i) && i <= n <= |path| && n <= i + 1
    requires n == i || Reach(ns, path[..i])
    ensures Ready(ns, path[..n])
  {
    var part := path[..n];
    forall j | 0 <= j < |part| && part[j] == ':'
      ensures Reach(ns, part[..j]) && (j + 1 < |part| ==> Reach(ns, part[..j + 1]))
    {
      assert path[j] == ':';
      assert part[..j] == path[..j];
      if j + 1 < n {
        assert part[..j + 1] == path[..j + 1];
      }
    }
  }

  lemma ReadyStays(a: seq<Node>, b: seq<Node>, path: string, i: nat)
    requires Extends(a, b, path) && ReadyTo(a, path, i)
    ensures ReadyTo(b, path, i)
  {
  }

  lemma BoundaryStep(ns: seq<Node>, path: string, i: nat, n: nat)
    requires Shape(ns, true) && '*' !in path && ReadyTo(ns, path, i)
    requires 0 < i <= n <= |path| && n <= i + 1 && (n == i || Reach(ns, path[..i])) && EndsAt(path, path[..n])
    ensures var r := AddTo(ns, path[..n], [], [], true).nodes;
            Extends(ns, r, path) && Reach(r, path[..n]) && ReadyTo(r, path, i)
  {
    ReadyPart(ns, path, i, n);
    AddBoundary(ns, path, n);
    ReadyStays(ns, AddTo(ns, path[..n], [], [], true).nodes, path, i);
  }

  /** One more `:` is enclosed. */
  lemma ReadyNext(ns: seq<Node>, before: seq<Node>, after: seq<Node>, path: string, i: nat)
    requires Extends(ns, before, path) && Extends(before, after, path) && ReadyTo(after, path, i)
    requires i < |path| && Reach(before, path[..i]) && (i + 1 < |path| ==> Reach(after, path[..i + 1]))
    ensures Extends(ns, after, path) && ReadyTo(after, path, i + 1)
  {
    ExtendsTwice(ns, before, after, path);
    assert Reach(after, path[..i]);
  }

  lemma AroundSpec(ns: seq<Node>, path: string, i: nat)
    requires Shape(ns, true) && '*' !in path && ReadyTo(ns, path, i)
    requires 0 < i < |path| && path[i] == ':'
    ensures Extends(ns, Around(ns, path, i), path) && ReadyTo(Around(ns, path, i), path, i + 1)
  {
    var before := AddTo(ns, path[..i], [], [], true).nodes;
    EndsSide(path, i);
    BoundaryStep(ns, path, i, i);
    if i + 1 < |path| {
      BoundaryStep(before, path, i, i + 1);
    }
    ReadyNext(ns, before, Around(ns, path, i), path, i);
  }

  lemma ReadySkip(ns: seq<Node>, path: string, i: nat)
    requires ReadyTo(ns, path, i) && i < |path| && path[i] != ':'
    ensures ReadyTo(ns, path, i + 1)
  {
  }

  lemma {:induction false} BoundariesSpec(ns: seq<Node>, path: string, i: nat)
    requires Shape(ns, true) && path != "" && path[0] == '/' && '*' !in path && i <= |path| && ReadyTo(ns, path, i)
    ensures var r := AddBoundaries(ns, path, ColonsFrom(path, i));
            Extends(ns, r, path) && ReadyTo(r, path, |path|)
    decreases |path| - i
  {
    var ps := ColonsFrom(path, i);
    if i == |path| {
      assert ps == [] && AddBoundaries(ns, path, ps) == ns;
    } else {
      if path[i] != ':' {
        assert ps == ColonsFrom(path, i + 1);
        ReadySkip(ns, path, i);
        BoundariesSpec(ns, path, i + 1);
      } else {
        assert ps[0] == i && ps[1..] == ColonsFrom(path, i + 1);
        AroundSpec(ns, path, i);
        var next := Around(ns, path, i);
        BoundariesSpec(next, path, i + 1);
        ExtendsTwice(ns, next, AddBoundaries(next, path, ColonsFrom(path, i + 1)), path);
      }
    }
  }

  // ------------------------------------------------------------- the whole of Insert

  /** Where a key is, all boundaries around its `:`s are. */
  lemma ReachColons(ns: seq<Node>, root: bool, key: string, j: nat)
    requires Shape(ns, root) && Reach(ns, key) && j < |key| && key[j] == ':'
    ensures Reach(ns, key[..j]) && Reach(ns, key[..j + 1])
  {
    ReachSide(ns, root, key, j, j);
    ReachSide(ns, root, key, j, j + 1);
  }

  lemma {:induction false} ReachSide(ns: seq<Node>, root: bool, key: string, j: nat, at: nat)
    requires Shape(ns, root) && Reach(ns, key) && j < |key| && key[j] == ':' && j <= at <= j + 1
    ensures Reach(ns, key[..at])
    decreases ns
  {
    var i := Match(ns, key);
    var n := ns[i];
    assert NodeShape(n, root);
    if j < |n.s| {
      assert n.s[j] == ':';
      assert n.s == ":" && key[..1] == ":";
      Only(ns, ":", i);
    } else {
      ReachSide(n.children, false, key[|n.s|..], j - |n.s|, at - |n.s|);
      BoundaryAbove(ns, key, i, at);
    }
  }

  /** A boundary below a sibling is one of its level. */
  lemma BoundaryAbove(ns: seq<Node>, key: string, i: nat, at: nat)
    requires Level(ns) && i < |ns| && ns[i].s != "" && ns[i].s <= key && |ns[i].s| <= at <= |key|
    requires Reach(ns[i].children, key[|ns[i].s|..][..at - |ns[i].s|])
    ensures Reach(ns, key[..at])
  {
    var s := ns[i].s;
    assert key[..at][|s|..] == key[|s|..][..at - |s|];
    Only(ns, key[..at], i);
  }

  lemma {:induction false} GetReaches(ns: seq<Node>, key: string)
    requires Get(ns, key).Some?
    ensures Reach(ns, key)
    decreases ns
  {
    var i := Match(ns, key);
    if |key| > |ns[i].s| {
      GetReaches(ns[i].children, key[|ns[i].s|..]);
    }
  }

  lemma AroundKnown(ns: seq<Node>, path: string, p: nat)
    requires Shape(ns, true) && Reach(ns, path) && '*' !in path
    requires 0 < p < |path| && path[p] == ':'
    ensures Around(ns, path, p) == ns
  {
    ReachColons(ns, true, path, p);
    NoStar(path, p);
    NoStar(path, p + 1);
    MergeKnown(ns, true, path[..p], [], []);
    MergeKnown(ns, true, path[..p + 1], [], []);
  }

  /** Enclosing the `:`s of a path that is there already changes nothing. */
  lemma {:induction false} BoundariesKnown(ns: seq<Node>, path: string, ps: seq<nat>)
    requires Shape(ns, true) && Reach(ns, path) && '*' !in path
    requires forall k :: 0 <= k < |ps| ==> 0 < ps[k] < |path| && path[ps[k]] == ':'
    ensures AddBoundaries(ns, path, ps) == ns
    decreases |ps|
  {
    if ps != [] {
      AroundKnown(ns, path, ps[0]);
      BoundariesKnown(ns, path, ps[1..]);
    }
  }

  /** Registering a path: its pattern's entry is added when it is free, an error and an
      unchanged tree when it is taken; all other entries stay; the shape is kept. */
  lemma InsertSpec(ns: seq<Node>, path: string, handlers: seq<Handler>)
    requires Shape(ns, true) && path != "" && path[0] == '/' && '*' !in Strip(path).0
    ensures var (pattern, names) := Strip(path);
            var r := Insert(ns, path, handlers);
            && Shape(r.nodes, true)
            && r.duplicate == (handlers != [] && Get(ns, pattern).Some?)
            && (r.duplicate ==> r.nodes == ns)
            && (forall key :: Get(r.nodes, key) ==
                  if key == pattern && handlers != [] && !r.duplicate then Some(Entry(names, handlers)) else Get(ns, key))
            && Reach(r.nodes, pattern)
            && (forall key :: Reach(ns, key) ==> Reach(r.nodes, key))
            && (forall key :: Reach(r.nodes, key) ==> Reach(ns, key) || Along(ns, pattern, key))
  {
    var (pattern, names) := Strip(path);
    StripSpec(path);
    BoundariesSpec(ns, pattern, 0);
    var mid := AddBoundaries(ns, pattern, ColonsFrom(pattern, 0));
    FinalMerge(ns, mid, pattern, names, handlers);
    if handlers != [] && Get(ns, pattern).Some? {
      GetReaches(ns, pattern);
      BoundariesKnown(ns, pattern, ColonsFrom(pattern, 0));
      MergeKnown(ns, true, pattern, names, handlers);
    }
  }

  lemma FinalMerge(ns: seq<Node>, mid: seq<Node>, pattern: string, names: seq<string>, handlers: seq<Handler>)
    requires Extends(ns, mid, pattern) && ReadyTo(mid, pattern, |pattern|)
    requires pattern != "" && '*' !in pattern
    ensures var r := AddTo(mid, pattern, names, handlers, true);
            && Shape(r.nodes, true)
            && r.duplicate == (handlers != [] && Get(ns, pattern).Some?)
            && (forall key :: Get(r.nodes, key) ==
                  if key == pattern && handlers != [] && !r.duplicate then Some(Entry(names, handlers)) else Get(ns, key))
            && Reach(r.nodes, pattern)
            && (forall key :: Reach(ns, key) ==> Reach(r.nodes, key))
            && (forall key :: Reach(r.nodes, key) ==> Reach(ns, key) || Along(ns, pattern, key))
  {
    var r := Merge(mid, pattern, "", names, handlers, true);
    AddToPlain(mid, pattern, names, handlers, true);
    ShapeAfterMerge(mid, true, pattern, names, handlers);
    GetAfterMerge(mid, true, pattern, names, handlers, pattern);
    ReachAfterMerge(mid, true, pattern, names, handlers, pattern);
    forall key
      ensures Get(r.nodes, key) == if key == pattern && handlers != [] && !r.duplicate then Some(Entry(names, handlers)) else Get(ns, key)
      ensures Reach(ns, key) ==> Reach(r.nodes, key)
      ensures Reach(r.nodes, key) ==> Reach(ns, key) || Along(ns, pattern, key)
    {
      GetAfterMerge(mid, true, pattern, names, handlers, key);
      ReachAfterMerge(mid, true, pattern, names, handlers, key);
      if Reach(r.nodes, key) && !Reach(mid, key) && key != pattern {
        var w := ReachNew(mid, true, pattern, names, handlers, key);
        OldPart(ns, mid, pattern, w, key);
      }
    }
  }
}
