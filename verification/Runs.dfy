/** Every list of registrations has a tree; and what the tree of three clashing routes misses. */
module RouteRuns {
  import opened Text
  import opened Patterns
  import opened RouteTree
  import opened RouteInsert
  import opened RouteOrder
  import opened RouteFind
  import opened RouteTable
  import opened RouteLookup
  import Reverse

  lemma InsertSorted(mid: seq<Node>, n: Node, p: nat)
    requires SortedBy(mid) && p <= |mid|
    requires forall k :: 0 <= k < p ==> !Less(n, mid[k])
    requires p < |mid| ==> Less(n, mid[p])
    ensures SortedBy(mid[..p] + [n] + mid[p..])
  {
    var w := mid[..p] + [n] + mid[p..];
    forall i, j | 0 <= i < j < |w|
      ensures !Less(w[j], w[i])
    {
      if j == p {
        assert w[i] == mid[i];
      } else if i == p {
        assert w[j] == mid[j - 1] && (j - 1 > p ==> !Less(mid[j - 1], mid[p]));
      } else {
        assert !Less(mid[if j > p then j - 1 else j], mid[if i > p then i - 1 else i]);
      }
    }
  }

  /** The first place where `n` may stand before the rest. */
  lemma PlaceFor(mid: seq<Node>, n: Node) returns (p: nat)
    ensures p <= |mid| && (forall k :: 0 <= k < p ==> !Less(n, mid[k])) && (p < |mid| ==> Less(n, mid[p]))
  {
    p := 0;
    while p < |mid| && !Less(n, mid[p])
      invariant p <= |mid| && forall k :: 0 <= k < p ==> !Less(n, mid[k])
    {
      p := p + 1;
    }
  }

  lemma {:induction false} SomeArrangement(ns: seq<Node>) returns (mid: seq<Node>)
    ensures Arranged(ns, mid)
    decreases |ns|
  {
    mid := [];
    if ns != [] {
      var rest := SomeArrangement(ns[1..]);
      var p := PlaceFor(rest, ns[0]);
      InsertSorted(rest, ns[0], p);
      mid := rest[..p] + [ns[0]] + rest[p..];
      PutBack(ns, rest, p);
    }
  }

  lemma PutBack(ns: seq<Node>, rest: seq<Node>, p: nat)
    requires ns != [] && multiset(rest) == multiset(ns[1..]) && p <= |rest|
    ensures multiset(rest[..p] + [ns[0]] + rest[p..]) == multiset(ns)
  {
    assert rest == rest[..p] + rest[p..] && ns == [ns[0]] + ns[1..];
  }

  /** Every level can be ordered, with all levels below. */
  lemma {:induction false} SomeOrder(ns: seq<Node>) returns (r: seq<Node>)
    ensures Prioritized(ns, r)
    decreases ns, 1, 0
  {
    var mid := SomeArrangement(ns);
    forall i | 0 <= i < |mid|
      ensures mid[i] in ns
    {
      assert mid[i] in multiset(mid);
    }
    r := EachOrder(ns, mid);
  }

  lemma {:induction false} EachOrder(ns: seq<Node>, mid: seq<Node>) returns (r: seq<Node>)
    requires forall i :: 0 <= i < |mid| ==> mid[i] in ns
    ensures |r| == |mid| && forall i :: 0 <= i < |mid| ==> PrioritizedNode(mid[i], r[i])
    decreases ns, 0, |mid|
  {
    r := [];
    if mid != [] {
      var p :| 0 <= p < |ns| && ns[p] == mid[0];
      var below := SomeOrder(ns[p].children);
      var tail := mid[1..];
      assert forall i :: 0 <= i < |tail| ==> tail[i] == mid[i + 1];
      var rest := EachOrder(ns, tail);
      r := [mid[0].(children := below)] + rest;
      assert forall i :: 0 < i < |mid| ==> mid[i] == tail[i - 1] && r[i] == rest[i - 1];
    }
  }

  /** Whatever is registered, there is a tree the registrations lead to. */
  lemma {:induction false} RunExists(regs: seq<Registration>) returns (r: seq<Node>)
    ensures Run(regs, r)
    decreases |regs|
  {
    if regs == [] {
      r := [];
    } else {
      var before, last := regs[..|regs| - 1], regs[|regs| - 1];
      var ns := RunExists(before);
      var i := Insert(ns, last.path, last.handlers);
      if i.duplicate {
        r := i.nodes;
      } else {
        r := SomeOrder(i.nodes);
      }
      assert Run(before, ns) && Next(ns, last, r);
    }
  }

  /** A path without parameters and without `*`. */
  lemma StaticPath(path: string)
    requires path != "" && path[0] == '/' && ':' !in path && '*' !in path
    ensures Strip(path).0 == path && Plain(path)
  {
    Reverse.StripNone(path);
  }

  /** A path that ends in its one parameter. */
  lemma ParamPath(s: string, name: string)
    requires s != "" && s[0] == '/' && ':' !in s && '*' !in s && '/' !in name
    ensures Strip(s + ":" + name).0 == s + ":" && Plain(s + ":" + name)
  {
    Reverse.StripAt(s, name);
    assert name + "" == name;
    UptoIs(name, "", '/');
    Reverse.StripNone("");
  }

  lemma TableStep(regs: seq<Registration>, last: Registration)
    ensures TableOf(regs + [last]) == Registered(TableOf(regs), last.path, last.handlers)
    ensures PatternsOf(regs + [last]) == PatternsOf(regs) + {Strip(last.path).0}
  {
    assert (regs + [last])[..|regs|] == regs;
    PatternsOfLast(regs + [last]);
  }

  /** Three registrations of different patterns make a table of three. */
  lemma ThreeTable(x: Registration, y: Registration, z: Registration)
    requires x.handlers != [] && y.handlers != [] && z.handlers != []
    requires var p, q, c := Strip(x.path).0, Strip(y.path).0, Strip(z.path).0; p != q && q != c && c != p
    ensures var regs := [x, y, z];
            PatternsOf(regs) == TableOf(regs).Keys && OneOf(TableOf(regs).Keys, Strip(x.path).0, Strip(y.path).0, Strip(z.path).0)
  {
    TableStep([], x);
    TableStep([x], y);
    TableStep([x, y], z);
    assert [] + [x] == [x] && [x] + [y] == [x, y] && [x, y] + [z] == [x, y, z];
    assert TableOf([]) == map[] && PatternsOf([]) == {};
  }

  lemma ClashUnfound(ns: seq<Node>, table: Table, s: string, b: char, p: string, q: string)
    requires s != "" && ':' !in s && b !in ":/"
    requires s + [b] < p && s + [b] < q && p[|s| + 1] != q[|s| + 1] && s + ":" != p && s + ":" != q
    requires OneOf(table.Keys, p, q, s + ":") && CleanTable(table) && Represents(ns, table, table.Keys)
    ensures Labelled(ns) && IsHit(table, s + [b]) && FindChild(ns, s + [b], []) == Missing
  {
    ClashMisses(ns, table, s, b, p, q);
    assert Hits(table, s + [b], s + ":", [[b]]);
  }

  /** Two routes that part behind `s` and `b`, and a parameter behind `s`: the parameter's route misses `b`. */
  lemma ThreeClash(ns: seq<Node>, x: Registration, y: Registration, z: Registration, s: string, b: char, p: string, q: string)
    requires Run([x, y, z], ns) && x.handlers != [] && y.handlers != [] && z.handlers != []
    requires Plain(x.path) && Plain(y.path) && Plain(z.path)
    requires Strip(x.path).0 == p && Strip(y.path).0 == q && Strip(z.path).0 == s + ":"
    requires s != "" && ':' !in s && b !in ":/"
    requires s + [b] < p && s + [b] < q && p[|s| + 1] != q[|s| + 1] && p[|p| - 1] != '/' && q[|q| - 1] != '/'
    ensures Labelled(ns) && IsHit(TableOf([x, y, z]), s + [b]) && FindChild(ns, s + [b], []) == Missing
  {
    var table := TableOf([x, y, z]);
    Apart(p, q, s + ":", s, b);
    ThreeTable(x, y, z);
    CleanThree(table, p, q, s + ":");
    ThreeRepresents(ns, x, y, z);
    ClashUnfound(ns, table, s, b, p, q);
  }

  lemma ThreeRepresents(ns: seq<Node>, x: Registration, y: Registration, z: Registration)
    requires Run([x, y, z], ns) && Plain(x.path) && Plain(y.path) && Plain(z.path)
    ensures Represents(ns, TableOf([x, y, z]), PatternsOf([x, y, z]))
  {
    ThreePlain(x, y, z);
    RunRepresents([x, y, z], ns);
  }

  lemma ThreePlain(x: Registration, y: Registration, z: Registration)
    requires Plain(x.path) && Plain(y.path) && Plain(z.path)
    ensures AllPlain([x, y, z])
  {
    var regs := [x, y, z];
    assert regs[0] == x && regs[1] == y && regs[2] == z;
    forall i | 0 <= i < |regs|
      ensures Plain(regs[i].path)
    {
      assert i == 0 || i == 1 || i == 2;
    }
  }

  lemma CleanThree(table: Table, p: string, q: string, c: string)
    requires OneOf(table.Keys, p, q, c) && p != "" && q != "" && c != ""
    requires p[|p| - 1] != '/' && q[|q| - 1] != '/' && c[|c| - 1] != '/'
    ensures CleanTable(table)
  {
    forall key | key in table
      ensures key == p || key == q || key == c
    {
      assert key in table.Keys;
    }
  }

  lemma Apart(p: string, q: string, c: string, s: string, b: char)
    requires s + [b] < p && s + [b] < q && p[|s| + 1] != q[|s| + 1] && c == s + ":" && b != ':'
    ensures p != q && q != c && c != p
  {
    assert p[|s|] == (s + [b])[|s|] && q[|s|] == (s + [b])[|s|] && c[|s|] == ':';
  }

  ghost predicate Literal(s: string) {
    ':' !in s && '*' !in s
  }

  /** Registering `s` with two more bytes, twice, and `s` with a parameter. */
  function Clashing(s: string, b: char, c: char, d: char, name: string): seq<Registration> {
    [Registration(s + [b] + [c], [1]), Registration(s + [b] + [d], [2]), Registration(s + ":" + name, [3])]
  }

  lemma StaticStart(s: string, b: char, c: char)
    requires s != "" && s[0] == '/' && Literal(s) && b !in ":/*" && c !in ":/*"
    ensures var p := s + [b] + [c]; Plain(p) && Strip(p).0 == p && s + [b] < p && p[|s| + 1] == c && p[|p| - 1] != '/'
  {
    StaticPath(s + [b] + [c]);
  }

  /** With `/a/bx`, `/a/by` and `/a/:p` registered, `/a/b` is spelled by `/a/:p` and never found; and so for any start
      in place of `/a/`, any bytes in place of `b`, `x` and `y`, and any name. */
  lemma NotFound(ns: seq<Node>, s: string, b: char, c: char, d: char, name: string)
    requires s != "" && s[0] == '/' && Literal(s) && b !in ":/*" && c !in ":/*" && d !in ":/*" && c != d && '/' !in name
    requires Run(Clashing(s, b, c, d, name), ns)
    ensures Labelled(ns) && IsHit(TableOf(Clashing(s, b, c, d, name)), s + [b]) && FindChild(ns, s + [b], []) == Missing
  {
    var regs := Clashing(s, b, c, d, name);
    StaticStart(s, b, c);
    StaticStart(s, b, d);
    ParamPath(s, name);
    ThreeClash(ns, regs[0], regs[1], regs[2], s, b, s + [b] + [c], s + [b] + [d]);
  }

  /** Registering `s`, `v` and a slash with two ends, and `s` with a parameter and a third end. */
  function Beside(s: string, v: string, b: char, c: char, name: string, d: char): seq<Registration> {
    [Registration(s + v + "/" + [b], [1]), Registration(s + v + "/" + [c], [2]), Registration(s + ":" + name + "/" + [d], [3])]
  }

  /** A path with one parameter in it. */
  lemma ParamWithin(s: string, name: string, d: char)
    requires s != "" && s[0] == '/' && Literal(s) && '/' !in name && d !in ":/*"
    ensures var path := s + ":" + name + "/" + [d]; Strip(path).0 == s + ":/" + [d] && Plain(path)
  {
    var rest := "/" + [d];
    assert s + ":" + name + "/" + [d] == s + ":" + (name + rest);
    Reverse.StripAt(s, name + rest);
    UptoIs(name, rest, '/');
    assert (name + rest)[|name|..] == rest;
    Reverse.StripNone(rest);
    assert s + ":" + rest == s + ":/" + [d];
  }

  lemma SlashStart(s: string, v: string, b: char)
    requires s != "" && s[0] == '/' && Literal(s + v) && b !in ":/*"
    ensures var p := s + v + "/" + [b]; Plain(p) && Strip(p).0 == p && ':' !in p && p[|s + v| + 1] == b && |p| == |s + v| + 2
    ensures s + v + "/" < s + v + "/" + [b]
  {
    StaticPath(s + v + "/" + [b]);
  }

  lemma ThreeBeside(ns: seq<Node>, x: Registration, y: Registration, z: Registration, s: string, v: string, d: string, p: string, q: string)
    requires Run([x, y, z], ns) && x.handlers != [] && y.handlers != [] && z.handlers != []
    requires Plain(x.path) && Plain(y.path) && Plain(z.path)
    requires Strip(x.path).0 == p && Strip(y.path).0 == q && Strip(z.path).0 == s + ":/" + d
    requires s != "" && v != "" && d != "" && ':' !in s + v + d && '/' !in v && d[|d| - 1] != '/'
    requires ':' !in p && ':' !in q && PartAt(p, q, s + v + "/") && p != s + v + "/" + d && q != s + v + "/" + d
    requires p[|p| - 1] != '/' && q[|q| - 1] != '/'
    ensures Labelled(ns) && IsHit(TableOf([x, y, z]), s + v + "/" + d) && FindChild(ns, s + v + "/" + d, []) == Missing
  {
    var table, r := TableOf([x, y, z]), s + ":/" + d;
    assert r[|s|] == ':' && p != q;
    ThreeTable(x, y, z);
    CleanThree(table, p, q, r);
    ThreeRepresents(ns, x, y, z);
    SlashMisses(ns, table, s, v, d, p, q);
    assert Hits(table, s + v + "/" + d, r, [v]);
  }

  /** With `/a/b`, `/a/c` and `/:x/d` registered, `/a/d` is spelled by `/:x/d` and never found; and so for any start in
      place of the first `/`, any value in place of `a`, any bytes in place of `b`, `c` and `d`, and any name. */
  lemma SlashNotFound(ns: seq<Node>, s: string, v: string, b: char, c: char, name: string, d: char)
    requires s != "" && s[0] == '/' && v != "" && Literal(s + v) && '/' !in v && '/' !in name
    requires b !in ":/*" && c !in ":/*" && d !in ":/*" && b != c && c != d && d != b
    requires Run(Beside(s, v, b, c, name, d), ns)
    ensures Labelled(ns) && IsHit(TableOf(Beside(s, v, b, c, name, d)), s + v + "/" + [d])
    ensures FindChild(ns, s + v + "/" + [d], []) == Missing
  {
    var regs := Beside(s, v, b, c, name, d);
    SlashStart(s, v, b);
    SlashStart(s, v, c);
    assert (s + v + "/" + [d])[|s + v| + 1] == d;
    ParamWithin(s, name, d);
    ThreeBeside(ns, regs[0], regs[1], regs[2], s, v, [d], s + v + "/" + [b], s + v + "/" + [c]);
  }
}
