/** What lookup answers after any run of registrations. */
module RouteLookup {
  import opened Options
  import opened Text
  import opened Patterns
  import opened RouteTree
  import opened RouteInsert
  import opened RouteOrder
  import opened RouteFind
  import opened RouteTable
  import opened RouteExact

  datatype Registration = Registration(path: string, handlers: seq<Handler>)

  /** One registration takes a tree to a tree: an error leaves what was inserted unordered. */
  ghost predicate Next(ns: seq<Node>, reg: Registration, r: seq<Node>) {
    var i := Insert(ns, reg.path, reg.handlers);
    if i.duplicate then r == i.nodes else Prioritized(i.nodes, r)
  }

  /** `r` is a tree the registrations may lead to from an empty one. */
  ghost predicate Run(regs: seq<Registration>, r: seq<Node>) {
    if regs == [] then r == []
    else
      var before, last := regs[..|regs| - 1], regs[|regs| - 1];
      exists ns :: Run(before, ns) && Next(ns, last, r)
  }

  /** The first registration with handlers of each pattern wins. */
  function TableOf(regs: seq<Registration>): Table {
    if regs == [] then map[]
    else
      var last := regs[|regs| - 1];
      Registered(TableOf(regs[..|regs| - 1]), last.path, last.handlers)
  }

  function PatternsOf(regs: seq<Registration>): set<string> {
    set i | 0 <= i < |regs| :: Strip(regs[i].path).0
  }

  ghost predicate AllPlain(regs: seq<Registration>) {
    forall i :: 0 <= i < |regs| ==> Plain(regs[i].path)
  }

  /** No registered pattern but `/` ends in `/`. */
  ghost predicate CleanTable(table: Table) {
    forall key :: key in table && key != "" && key[|key| - 1] == '/' ==> key == "/"
  }

  /** Every tree of a run holds exactly the table of the run, shaped and sorted. */
  lemma {:induction false} RunRepresents(regs: seq<Registration>, r: seq<Node>)
    requires Run(regs, r) && AllPlain(regs)
    ensures Represents(r, TableOf(regs), PatternsOf(regs))
    decreases |regs|
  {
    if regs == [] {
      EmptyRepresents();
    } else {
      var before, last := regs[..|regs| - 1], regs[|regs| - 1];
      var ns :| Run(before, ns) && Next(ns, last, r);
      RunRepresents(before, ns);
      AddKeeps(ns, TableOf(before), PatternsOf(before), last.path, last.handlers, r);
      PatternsOfLast(regs);
    }
  }

  lemma PatternsOfLast(regs: seq<Registration>)
    requires regs != []
    ensures PatternsOf(regs) == PatternsOf(regs[..|regs| - 1]) + {Strip(regs[|regs| - 1].path).0}
  {
    var before := regs[..|regs| - 1];
    assert forall i :: 0 <= i < |before| ==> before[i] == regs[i];
    assert Strip(regs[|regs| - 1].path).0 in PatternsOf(regs);
    forall p | p in PatternsOf(before)
      ensures p in PatternsOf(regs)
    {
      var i :| 0 <= i < |before| && p == Strip(before[i].path).0;
      assert Strip(regs[i].path).0 == p;
    }
    forall p | p in PatternsOf(regs) && p != Strip(regs[|regs| - 1].path).0
      ensures p in PatternsOf(before)
    {
      var i :| 0 <= i < |regs| && p == Strip(regs[i].path).0;
      assert Strip(before[i].path).0 == p;
    }
  }

  /** `path` is what the registered pattern `key` spells with `values`. */
  ghost predicate Hits(table: Table, path: string, key: string, values: seq<string>) {
    key in table && Spells(key, values, path)
  }

  ghost predicate IsHit(table: Table, path: string) {
    exists key, values :: Hits(table, path, key, values)
  }

  /** Lookup answers `r` with the entry and the values of a hit. */
  ghost predicate AnswersHit(table: Table, r: FindResult, key: string, values: seq<string>) {
    key in table && r.Found? && r.values == values && Entry(r.node.names, r.node.handlers) == table[key]
  }

  /** A hit none of whose parameters is blocked. */
  ghost predicate FreeHit(table: Table, patterns: set<string>, path: string, key: string, values: seq<string>) {
    Hits(table, path, key, values) && Free(patterns, "", key, path)
  }

  ghost predicate IsFreeHit(table: Table, patterns: set<string>, path: string) {
    exists key, values :: FreeHit(table, patterns, path, key, values)
  }

  /** The free hit that wins: every other one has a parameter where this one has a literal. */
  ghost predicate FirstHit(table: Table, patterns: set<string>, path: string, key: string, values: seq<string>) {
    && FreeHit(table, patterns, path, key, values)
    && forall other, others :: FreeHit(table, patterns, path, other, others) ==> After(other, others, key, values)
  }

  lemma FirstUnique(table: Table, patterns: set<string>, path: string, key: string, values: seq<string>,
                    other: string, others: seq<string>)
    requires FirstHit(table, patterns, path, key, values) && FirstHit(table, patterns, path, other, others)
    ensures key == other && values == others
  {
    assert After(key, values, other, others) && After(other, others, key, values);
    if Clash(key, other) {
      ClashOneWay(key, other);
    }
  }

  /** What competes in the tree is a free hit of the table. */
  lemma CompetesIff(ns: seq<Node>, table: Table, patterns: set<string>, path: string, key: string, values: seq<string>)
    requires Represents(ns, table, patterns)
    ensures Competes(ns, path, key, values) == FreeHit(table, patterns, path, key, values)
  {
    assert Get(ns, key) == if key in table then Some(table[key]) else None;
    if key in table {
      assert key in patterns && PatternShape(key) && Reach(ns, key);
      BelowRoot(ns, patterns);
      ClearIff(ns, true, patterns, "", key, path);
    }
  }

  lemma RepresentsLabelled(ns: seq<Node>, table: Table, patterns: set<string>)
    requires Represents(ns, table, patterns)
    ensures Labelled(ns)
  {
    ShapeLabelled(ns, true);
  }

  /** Whatever is found is a registered pattern that its values turn into the request path, one value for each name;
      and it is the first free one. */
  lemma LookupSound(ns: seq<Node>, table: Table, patterns: set<string>, path: string) returns (key: string, values: seq<string>)
    requires Represents(ns, table, patterns) && Labelled(ns) && CleanTable(table) && path != ""
    requires FindChild(ns, path, []).Found?
    ensures FirstHit(table, patterns, path, key, values) && AnswersHit(table, FindChild(ns, path, []), key, values)
    ensures |values| == |FindChild(ns, path, []).node.names|
  {
    EntriesClean(ns, table);
    SortedColonsLast(ns, true);
    key, values := FindSound(ns, true, path, []);
    assert Get(ns, key) == Some(table[key]) && PatternShape(key);
    assert [] + values == values;
    CompetesIff(ns, table, patterns, path, key, values);
    forall other, others | FreeHit(table, patterns, path, other, others)
      ensures After(other, others, key, values)
    {
      CompetesIff(ns, table, patterns, path, other, others);
    }
  }

  /** Lookup in any table: a request path is found exactly when it has a free hit, and the first of them is the answer. */
  lemma LookupExact(ns: seq<Node>, table: Table, patterns: set<string>, path: string)
    requires Represents(ns, table, patterns) && Labelled(ns) && CleanTable(table) && path != ""
    ensures FindChild(ns, path, []).Found? <==> IsFreeHit(table, patterns, path)
    ensures forall key, values :: FirstHit(table, patterns, path, key, values) ==>
              AnswersHit(table, FindChild(ns, path, []), key, values)
  {
    forall key, values | FreeHit(table, patterns, path, key, values)
      ensures FindChild(ns, path, []).Found?
    {
      CompetesIff(ns, table, patterns, path, key, values);
      SortedColonsLast(ns, true);
      FoundIf(ns, true, path, [], key, values);
    }
    if FindChild(ns, path, []).Found? {
      var first, vs := LookupSound(ns, table, patterns, path);
      forall key, values | FirstHit(table, patterns, path, key, values)
        ensures key == first && values == vs
      {
        FirstUnique(table, patterns, path, key, values, first, vs);
      }
    }
  }

  /** Without clashing patterns every registered pattern is found under everything it spells. */
  lemma LookupComplete(ns: seq<Node>, table: Table, patterns: set<string>, path: string, key: string, values: seq<string>)
    requires Represents(ns, table, patterns) && Labelled(ns) && NoClash(patterns)
    requires Hits(table, path, key, values)
    ensures AnswersHit(table, FindChild(ns, path, []), key, values)
  {
    ApartIff(ns, table, patterns);
    assert Get(ns, key) == Some(table[key]) && key in patterns && PatternShape(key);
    FindComplete(ns, true, key, values, []);
    assert [] + values == values;
  }

  /** Lookup is exact: it finds a request path exactly when a registered pattern spells it, and answers with that pattern's
      entry and values. */
  lemma LookupApart(ns: seq<Node>, table: Table, patterns: set<string>, path: string)
    requires Represents(ns, table, patterns) && Labelled(ns) && path != ""
    requires CleanTable(table) && NoClash(patterns)
    ensures FindChild(ns, path, []).Found? <==> IsHit(table, path)
    ensures forall key, values :: Hits(table, path, key, values) ==> AnswersHit(table, FindChild(ns, path, []), key, values)
  {
    if FindChild(ns, path, []).Found? {
      var key, values := LookupSound(ns, table, patterns, path);
    }
    forall key, values | Hits(table, path, key, values)
      ensures AnswersHit(table, FindChild(ns, path, []), key, values)
    {
      LookupComplete(ns, table, patterns, path, key, values);
    }
  }

  /** No pattern clashes with another, or this hit is the first free one of a clean table. */
  ghost predicate Unhidden(table: Table, patterns: set<string>, path: string, key: string, values: seq<string>) {
    NoClash(patterns) || (CleanTable(table) && FirstHit(table, patterns, path, key, values))
  }

  lemma LookupUnhidden(ns: seq<Node>, table: Table, patterns: set<string>, path: string, key: string, values: seq<string>)
    requires Represents(ns, table, patterns) && Labelled(ns) && Hits(table, path, key, values)
    requires Unhidden(table, patterns, path, key, values)
    ensures AnswersHit(table, FindChild(ns, path, []), key, values)
  {
    if NoClash(patterns) {
      LookupComplete(ns, table, patterns, path, key, values);
    } else {
      assert key in patterns && PatternShape(key);
      FillNonEmpty(key, values);
      LookupExact(ns, table, patterns, path);
    }
  }

  /** The same over whole runs: after any registrations whose patterns do not clash, lookup agrees with the table
      of first registrations. */
  lemma RunApart(regs: seq<Registration>, ns: seq<Node>, path: string)
    requires Run(regs, ns) && AllPlain(regs) && path != ""
    requires CleanTable(TableOf(regs)) && NoClash(PatternsOf(regs))
    ensures Labelled(ns)
    ensures FindChild(ns, path, []).Found? <==> IsHit(TableOf(regs), path)
    ensures forall key, values :: Hits(TableOf(regs), path, key, values) ==>
              AnswersHit(TableOf(regs), FindChild(ns, path, []), key, values)
  {
    RunRepresents(regs, ns);
    RepresentsLabelled(ns, TableOf(regs), PatternsOf(regs));
    LookupApart(ns, TableOf(regs), PatternsOf(regs), path);
  }

  /** And after any registrations, with clashing patterns included, it answers with the first free hit. */
  lemma RunExact(regs: seq<Registration>, ns: seq<Node>, path: string)
    requires Run(regs, ns) && AllPlain(regs) && path != "" && CleanTable(TableOf(regs))
    ensures Labelled(ns)
    ensures FindChild(ns, path, []).Found? <==> IsFreeHit(TableOf(regs), PatternsOf(regs), path)
    ensures forall key, values :: FirstHit(TableOf(regs), PatternsOf(regs), path, key, values) ==>
              AnswersHit(TableOf(regs), FindChild(ns, path, []), key, values)
  {
    RunRepresents(regs, ns);
    RepresentsLabelled(ns, TableOf(regs), PatternsOf(regs));
    LookupExact(ns, TableOf(regs), PatternsOf(regs), path);
  }

  ghost predicate SameAnswer(a: FindResult, b: FindResult) {
    a.Found? == b.Found?
    && (a.Found? ==> a.values == b.values && a.node.names == b.node.names && a.node.handlers == b.node.handlers)
  }

  /** The order of the registrations does not matter, as long as the same ones come first for their patterns. */
  lemma OrderIrrelevant(regs: seq<Registration>, others: seq<Registration>, ns: seq<Node>, ms: seq<Node>, path: string)
    requires Run(regs, ns) && Run(others, ms) && AllPlain(regs) && AllPlain(others)
    requires TableOf(regs) == TableOf(others) && PatternsOf(regs) == PatternsOf(others)
    requires CleanTable(TableOf(regs)) && path != ""
    ensures Labelled(ns) && Labelled(ms) && SameAnswer(FindChild(ns, path, []), FindChild(ms, path, []))
  {
    var table, patterns := TableOf(regs), PatternsOf(regs);
    RunExact(regs, ns, path);
    RunExact(others, ms, path);
    RunRepresents(regs, ns);
    if FindChild(ns, path, []).Found? {
      var key, values := LookupSound(ns, table, patterns, path);
    }
  }

  /** A table without parameters is looked up like a map. */
  lemma StaticExact(regs: seq<Registration>, ns: seq<Node>, path: string)
    requires Run(regs, ns) && AllPlain(regs) && path != "" && CleanTable(TableOf(regs))
    requires forall p :: p in PatternsOf(regs) ==> ':' !in p
    ensures Labelled(ns)
    ensures FindChild(ns, path, []).Found? <==> path in TableOf(regs)
    ensures path in TableOf(regs) ==> AnswersHit(TableOf(regs), FindChild(ns, path, []), path, [])
  {
    RunRepresents(regs, ns);
    var table := TableOf(regs);
    RunApart(regs, ns, path);
    forall key, values | Hits(table, path, key, values)
      ensures key == path && values == []
    {
      FillPlain(key);
    }
    if path in table {
      FillPlain(path);
      assert Hits(table, path, path, []);
    }
  }

  // --------------------------------------------------- patterns that do clash

  /** `p` has a `:` where `u` goes on after its first `k` bytes. */
  ghost predicate ColonAt(u: string, k: nat, p: string) {
    k <= |u| && u[..k] + ":" <= p
  }

  lemma NoColonAt(s: string, u: string, k: nat, p: string)
    requires s <= u && s <= p && k < |s| && ':' !in s
    ensures !ColonAt(u, k, p)
  {
    var v := u[..k] + ":";
    assert v[k] == ':' && p[k] == s[k];
  }

  /** Two patterns that part right behind the static `u` make lookup of `u` give up, whatever else is registered,
      as long as a `:` stands beside no other byte of `u` than its last. */
  lemma GivesUp(ns: seq<Node>, table: Table, patterns: set<string>, a: string, b: string, u: string)
    requires Represents(ns, table, patterns) && Labelled(ns) && CleanTable(table)
    requires a in patterns && b in patterns
    requires u != "" && u < a && u < b && a[|u|] != b[|u|]
    requires ':' !in u && u !in table
    requires forall k, p :: 0 <= k < |u| - 1 && p in patterns ==> !ColonAt(u, k, p)
    ensures FindChild(ns, u, []) == Missing
  {
    forall key, values
      ensures !FreeHit(table, patterns, u, key, values)
    {
      if FreeHit(table, patterns, u, key, values) {
        assert key in patterns && PatternShape(key);
        HitAtLast(patterns, u, key, values);
        var k := |u| - 1;
        assert u[..k] + u[k..][..1] == u && PartAt(a, b, u);
        assert NextAt(patterns, u[..k], u[k..], 1);
      }
    }
    LookupExact(ns, table, patterns, u);
  }

  /** A free hit with a parameter no earlier than at the last byte has it there. */
  lemma HitAtLast(patterns: set<string>, u: string, key: string, values: seq<string>)
    requires key in patterns && Normal(key) && key != u && u != "" && Spells(key, values, u) && Free(patterns, "", key, u)
    requires forall k, p :: 0 <= k < |u| - 1 && p in patterns ==> !ColonAt(u, k, p)
    ensures !Blocked(patterns, u[..|u| - 1], u[|u| - 1..])
  {
    if ':' !in key {
      FillPlain(key);
      assert false;
    } else {
      var k := Upto(key, ':');
      FreeFrom(patterns, u, key, values, k);
      assert ColonAt(u, k, key) && k == |u| - 1;
    }
  }

  /** A free hit is free from its first parameter on. */
  lemma FreeFrom(patterns: set<string>, u: string, key: string, values: seq<string>, k: nat)
    requires Normal(key) && Spells(key, values, u) && Free(patterns, "", key, u)
    requires k < |key| && key[k] == ':' && ':' !in key[..k]
    ensures k < |u| && u[..k] + ":" <= key && !Blocked(patterns, u[..k], u[k..])
  {
    var head, rest := key[..k], key[k..];
    assert key == head + rest && "" + head == head;
    LiteralFirst(head, rest, values, u, key);
    FreeLiteral(patterns, "", head, rest, u);
    assert head + ":" == key[..k + 1];
  }

  lemma LiteralFirst(head: string, rest: string, values: seq<string>, u: string, key: string)
    requires key == head + rest && rest != "" && ':' !in head && Normal(key) && Spells(key, values, u)
    ensures |head| < |u| && u[..|head|] == head
  {
    FillBelow(head, rest, values);
    NormalBehind(key, |head|);
    FillNonEmpty(rest, values);
  }

  lemma EntriesClean(ns: seq<Node>, table: Table)
    requires Entries(ns, table) && CleanTable(table)
    ensures Clean(ns, true)
  {
    forall key | Get(ns, key).Some? && key != "" && key[|key| - 1] == '/'
      ensures key == "/"
    {
      assert key in table;
    }
  }

  ghost predicate OneOf(keys: set<string>, p: string, q: string, c: string) {
    p in keys && q in keys && c in keys && forall r :: r in keys ==> r == p || r == q || r == c
  }

  /** So lookup is not complete for clashing patterns: with `/a/bx`, `/a/by` and `/a/:` registered, `/a/b` is not
      found, although `/a/:` spells it; and so for any static start `s` in place of `/a/`, and any byte `b`. */
  lemma ClashMisses(ns: seq<Node>, table: Table, s: string, b: char, p: string, q: string)
    requires s != "" && ':' !in s && b !in ":/"
    requires s + [b] < p && s + [b] < q && p[|s| + 1] != q[|s| + 1] && s + ":" != p && s + ":" != q
    requires OneOf(table.Keys, p, q, s + ":") && CleanTable(table) && Represents(ns, table, table.Keys)
    ensures Hits(table, s + [b], s + ":", [[b]]) && Clash(s + ":", p)
    ensures Labelled(ns) && FindChild(ns, s + [b], []) == Missing
  {
    RepresentsLabelled(ns, table, table.Keys);
    ColonSpells(s, b, p);
    ColonSpells(s, b, q);
    NoneBeside(table.Keys, s, b, p, q);
    GivesUp(ns, table, table.Keys, p, q, s + [b]);
  }

  /** Nor for a start that ends in `/`: with `/a/b`, `/a/c` and `/:/d` registered, `/a/d` is not found, although `/:/d`
      spells it; and so for any static start `s` in place of the first `/`, any value `v` and any rest `d`. */
  lemma SlashMisses(ns: seq<Node>, table: Table, s: string, v: string, d: string, p: string, q: string)
    requires s != "" && v != "" && ':' !in s + v + d && '/' !in v
    requires ':' !in p && ':' !in q && PartAt(p, q, s + v + "/") && p != s + v + "/" + d && q != s + v + "/" + d
    requires OneOf(table.Keys, p, q, s + ":/" + d) && CleanTable(table) && Represents(ns, table, table.Keys)
    ensures Hits(table, s + v + "/" + d, s + ":/" + d, [v])
    ensures Labelled(ns) && FindChild(ns, s + v + "/" + d, []) == Missing
  {
    RepresentsLabelled(ns, table, table.Keys);
    var path := s + v + "/" + d;
    SlashSpells(s, v, d);
    forall key, values
      ensures !FreeHit(table, table.Keys, path, key, values)
    {
      if Hits(table, path, key, values) {
        assert PatternShape(key);
        SlashNone(table.Keys, s, v, d, p, q, key, values);
      }
    }
    LookupExact(ns, table, table.Keys, path);
  }

  lemma SlashNone(keys: set<string>, s: string, v: string, d: string, p: string, q: string, key: string, values: seq<string>)
    requires v != "" && ':' !in s + v + d && '/' !in v
    requires ':' !in p && ':' !in q && PartAt(p, q, s + v + "/") && p != s + v + "/" + d && q != s + v + "/" + d
    requires OneOf(keys, p, q, s + ":/" + d) && key in keys && Normal(key) && Spells(key, values, s + v + "/" + d)
    ensures !Free(keys, "", key, s + v + "/" + d)
  {
    if ':' in key {
      SlashNext(keys, s, v, d, p, q);
      SlashKept(keys, s, v, d, key, values);
    } else {
      FillPlain(key);
    }
  }

  lemma SlashKept(keys: set<string>, s: string, v: string, d: string, key: string, values: seq<string>)
    requires ':' !in s && key == s + ":/" + d && Normal(key) && Spells(key, values, s + v + "/" + d)
    requires Blocked(keys, s, v + "/" + d)
    ensures !Free(keys, "", key, s + v + "/" + d)
  {
    var path := s + v + "/" + d;
    assert key[|s|] == ':' && key[..|s|] == s;
    assert path[..|s|] == s && path[|s|..] == v + "/" + d;
    if Free(keys, "", key, path) {
      FreeFrom(keys, path, key, values, |s|);
    }
  }

  lemma SlashSpells(s: string, v: string, d: string)
    requires v != "" && ':' !in s + v + d && '/' !in v
    ensures Spells(s + ":/" + d, [v], s + v + "/" + d)
  {
    var rest := "/" + d;
    assert s + ":/" + d == s + ":" + rest && s + v + "/" + d == s + v + rest;
    FillPlain(rest);
    FillParam(s, rest, v, []);
    assert [v] + [] == [v];
  }

  lemma SlashNext(keys: set<string>, s: string, v: string, d: string, p: string, q: string)
    requires v != "" && ':' !in s + v && '/' !in v && ':' !in p && ':' !in q
    requires OneOf(keys, p, q, s + ":/" + d) && PartAt(p, q, s + v + "/")
    ensures Blocked(keys, s, v + "/" + d)
  {
    var rest, n := v + "/" + d, |v| + 1;
    assert s + rest[..n] == s + v + "/";
    assert Boundary(keys, s + rest[..n]);
    forall k | 0 < k < n
      ensures !Boundary(keys, s + rest[..k])
    {
      SlashBetween(keys, s, v, d, p, q, s + rest[..k]);
    }
    assert NextAt(keys, s, rest, n) && rest[n - 1] == '/' && rest[0] == v[0];
  }

  lemma SlashBetween(keys: set<string>, s: string, v: string, d: string, p: string, q: string, u: string)
    requires ':' !in s + v && ':' !in p && ':' !in q && OneOf(keys, p, q, s + ":/" + d) && PartAt(p, q, s + v + "/")
    requires s < u < s + v + "/"
    ensures !Boundary(keys, u)
  {
    var c, m := s + ":/" + d, s + v + "/";
    assert u[|s|] == m[|s|] != ':' && c[|s|] == ':';
    assert forall a :: a in keys && a != c ==> u < a && a[|u|] == m[|u|] && ':' !in a;
    forall a | a in keys
      ensures !EndsAt(a, u)
    {
      if EndsAt(a, u) {
        EndsPrefix(a, u);
      }
    }
  }

  lemma NoneBeside(keys: set<string>, s: string, b: char, p: string, q: string)
    requires ':' !in s && b != ':' && OneOf(keys, p, q, s + ":") && s + [b] < p && s + [b] < q
    ensures s + [b] !in keys && p in keys && q in keys
    ensures forall k, r :: 0 <= k < |s + [b]| - 1 && r in keys ==> !ColonAt(s + [b], k, r)
  {
    var u := s + [b];
    assert u[|s|] == b && (s + ":")[|s|] == ':';
    assert s <= s + ":" && s <= u && s <= p && s <= q by {
      assert u[..|s|] == s && p[..|s|] == u[..|s|] && q[..|s|] == u[..|s|];
    }
    forall k, r | 0 <= k < |u| - 1 && r in keys
      ensures !ColonAt(u, k, r)
    {
      NoColonAt(s, u, k, r);
    }
  }

  lemma ColonSpells(s: string, b: char, p: string)
    requires ':' !in s && b !in ":/" && s + [b] < p
    ensures Spells(s + ":", [[b]], s + [b]) && Clash(s + ":", p) && ':' !in s + [b]
    ensures s <= p && s <= s + ":" && s <= s + [b] && s + [b] != s + ":" && s + [b] != p
  {
    SpellsColonEnd([b]);
    SpellsLabel(s, ":", [[b]], [b]);
    assert (s + ":")[..|s|] == p[..|s|] && p[|s|] == b;
    assert ClashAt(s + ":", p, |s|);
    assert (s + [b])[|s|] != (s + ":")[|s|];
  }
}
