/** The router's node list: registration and lookup on the heap, against the table of patterns. */
module Router {
  import opened Text
  import opened Patterns
  import opened RouteTree
  import opened RouteInsert
  import opened RouteOrder
  import opened RouteFind
  import opened RouteTable
  import opened RouteLookup
  import opened RouteNodes
  import Store = MemStore

  /** What one turn of the stripping loop leaves: the result, or what the next turn starts from. */
  datatype Turn = Ready(path: string, params: seq<string>) | Go(path: string, end: nat, params: seq<string>)

  function TurnOf(path: string, end: nat, params: seq<string>): (t: Turn)
    requires end <= |path|
    ensures t.Go? ==> end < t.end <= |t.path| <= |path|
  {
    var found := IndexByte(path[end..], ':');
    if found == -1 then Ready(path, params)
    else
      var start := end + found + 1;
      var len := IndexByte(path[start..], '/');
      if len == -1 then Ready(path[..start], params + [path[start..]])
      else Go(path[..start] + path[start + len..], start, params + [path[start..start + len]])
  }

  /** The stripping loop, done with the first `end` bytes. */
  function StripFrom(path: string, end: nat, params: seq<string>): (string, seq<string>)
    requires end <= |path|
    decreases |path| - end
  {
    match TurnOf(path, end, params)
    case Ready(path', params') => (path', params')
    case Go(path', end', params') => StripFrom(path', end', params')
  }

  /** Take the parameter names out of a path, leaving their `:`s. */
  method StripNames(full: string) returns (path: string, params: seq<string>)
    ensures path == Strip(full).0 && params == Strip(full).1
  {
    path, params := StripLoop(full);
    StripFromSpec(full, 0, []);
    assert full[0..] == full && full[..0] + Strip(full).0 == Strip(full).0 && [] + Strip(full).1 == Strip(full).1;
  }

  method StripLoop(full: string) returns (path: string, params: seq<string>)
    ensures (path, params) == StripFrom(full, 0, [])
  {
    path, params := full, [];
    var paramEnd: nat := 0;
    while true
      invariant paramEnd <= |path| && StripFrom(path, paramEnd, params) == StripFrom(full, 0, [])
      decreases |path| - paramEnd
    {
      var done;
      done, path, paramEnd, params := StripOne(path, paramEnd, params);
      if done {
        return;
      }
    }
  }

  /** Cut out the next name; done when there is none, or none behind it. */
  method StripOne(full: string, paramEnd: nat, names: seq<string>)
      returns (done: bool, path: string, paramStart: nat, params: seq<string>)
    requires paramEnd <= |full|
    ensures TurnOf(full, paramEnd, names) == if done then Ready(path, params) else Go(path, paramStart, params)
  {
    var found := IndexByte(full[paramEnd..], ':');
    if found == -1 {
      return true, full, paramEnd, names;
    }
    paramStart := paramEnd + found + 1;
    var len := IndexByte(full[paramStart..], '/');
    if len == -1 {
      return true, full[..paramStart], paramStart, names + [full[paramStart..]];
    }
    return false, full[..paramStart] + full[paramStart + len..], paramStart, names + [full[paramStart..paramStart + len]];
  }

  /** What is done, and what is left stripped. */
  function Whole(path: string, end: nat, params: seq<string>): (string, seq<string>)
    requires end <= |path|
  {
    (path[..end] + Strip(path[end..]).0, params + Strip(path[end..]).1)
  }

  /** The loop strips what is left and puts it behind what is done. */
  lemma {:induction false} StripFromSpec(path: string, end: nat, params: seq<string>)
    requires end <= |path|
    ensures StripFrom(path, end, params) == Whole(path, end, params)
    decreases |path| - end
  {
    TurnSpec(path, end, params);
    var t := TurnOf(path, end, params);
    if t.Go? {
      StripFromSpec(t.path, t.end, t.params);
    }
  }

  lemma TurnSpec(path: string, end: nat, params: seq<string>)
    requires end <= |path|
    ensures match TurnOf(path, end, params)
            case Ready(path', params') => Whole(path, end, params) == (path', params')
            case Go(path', end', params') => Whole(path, end, params) == Whole(path', end', params')
  {
    var found := Upto(path[end..], ':');
    if found == |path[end..]| {
      WholeNone(path, end, params);
    } else {
      TurnCut(path, end, params, end + found + 1);
    }
  }

  lemma TurnCut(path: string, end: nat, params: seq<string>, start: nat)
    requires end <= |path| && Upto(path[end..], ':') < |path[end..]| && start == end + Upto(path[end..], ':') + 1
    ensures match TurnOf(path, end, params)
            case Ready(path', params') => Whole(path, end, params) == (path', params')
            case Go(path', end', params') => Whole(path, end, params) == Whole(path', end', params')
  {
    var e := Upto(path[start..], '/');
    WholeCut(path, end, params, start, e);
    TurnIs(path, end, params, start, e);
    if e == |path[start..]| {
      WholeLast(path, params, start, e);
    }
  }

  lemma TurnIs(path: string, end: nat, params: seq<string>, start: nat, e: nat)
    requires end <= |path| && Upto(path[end..], ':') < |path[end..]| && start == end + Upto(path[end..], ':') + 1
    requires e == Upto(path[start..], '/')
    ensures TurnOf(path, end, params) ==
              if e == |path[start..]| then Ready(path[..start], params + [path[start..]])
              else Go(path[..start] + path[start + e..], start, params + [path[start..start + e]])
  {
    var found := IndexByte(path[end..], ':');
    assert found == Upto(path[end..], ':') && end + found + 1 == start;
    assert IndexByte(path[start..], '/') == if e == |path[start..]| then -1 else e;
  }

  lemma WholeNone(path: string, end: nat, params: seq<string>)
    requires end <= |path| && Upto(path[end..], ':') == |path[end..]|
    ensures Whole(path, end, params) == (path, params)
  {
    assert path[..end] + path[end..] == path && params + [] == params;
  }

  lemma WholeCut(path: string, end: nat, params: seq<string>, start: nat, e: nat)
    requires end < start <= |path| && Upto(path[end..], ':') == start - end - 1 && e == Upto(path[start..], '/')
    ensures Whole(path, end, params) == Whole(path[..start] + path[start + e..], start, params + [path[start..start + e]])
  {
    var i, next := start - end - 1, Strip(path[start..][e..]);
    Sliced(path, end, start, e);
    CutSpec(path[end..], i, path[start..], e);
    Regrouped(path[..end], path[end..][..i] + ":", next.0);
    Regrouped(params, [path[start..start + e]], next.1);
  }

  lemma WholeLast(path: string, params: seq<string>, start: nat, e: nat)
    requires start + e == |path|
    ensures Whole(path[..start] + path[start + e..], start, params + [path[start..start + e]]) == (path[..start], params + [path[start..]])
  {
    var last := params + [path[start..]];
    assert path[start..start + e] == path[start..];
    assert path[..start] + path[start + e..] == path[..start] && path[..start][start..] == "" && path[..start][..start] == path[..start];
    assert Strip("") == ("", []) && last + [] == last;
  }

  lemma CutSpec(rest: string, i: nat, tail: string, e: nat)
    requires i == Upto(rest, ':') < |rest| && tail == rest[i + 1..] && e == Upto(tail, '/')
    ensures Strip(rest) == (rest[..i] + ":" + Strip(tail[e..]).0, [tail[..e]] + Strip(tail[e..]).1)
  {
    assert Strip(rest) == (rest[..i] + ":" + Strip(rest[i + 1..][e..]).0, [rest[i + 1..][..e]] + Strip(rest[i + 1..][e..]).1);
  }

  lemma Sliced(path: string, end: nat, start: nat, e: nat)
    requires end < start && start + e <= |path| && path[end..][start - end - 1] == ':'
    ensures path[end..][start - end..] == path[start..]
    ensures path[..end] + (path[end..][..start - end - 1] + ":") == path[..start]
    ensures path[start..][..e] == path[start..start + e]
    ensures var next := path[..start] + path[start + e..];
            next[..start] == path[..start] && next[start..] == path[start..][e..]
  {
  }

  lemma Regrouped<T>(a: seq<T>, b: seq<T>, c: seq<T>)
    ensures a + (b + c) == a + b + c
  {
  }

  /** The positions of the `:`s of a path. */
  method ColonPositions(path: string) returns (ps: seq<nat>)
    ensures ps == ColonsFrom(path, 0)
  {
    ps := [];
    var i := 0;
    while i < |path|
      invariant 0 <= i <= |path| && ColonsFrom(path, 0) == ps + ColonsFrom(path, i)
    {
      var found := IndexByte(path[i..], ':');
      IndexFrom(path, i);
      NoColonsFrom(path, i, if found == -1 then |path| else i + found);
      if found == -1 {
        return;
      }
      ps := ps + [i + found];
      i := i + found + 1;
    }
  }

  lemma IndexFrom(path: string, i: nat)
    requires i <= |path|
    ensures var found := IndexByte(path[i..], ':');
            var end := if found == -1 then |path| else i + found;
            i <= end <= |path| && (forall k :: i <= k < end ==> path[k] != ':') && (end < |path| ==> path[end] == ':')
  {
    var n := Upto(path[i..], ':');
    assert forall k :: i <= k < |path| ==> path[k] == path[i..][k - i];
  }

  /** A stretch without `:` adds no position. */
  lemma {:induction false} NoColonsFrom(path: string, i: nat, j: nat)
    requires i <= j <= |path| && forall k :: i <= k < j ==> path[k] != ':'
    ensures ColonsFrom(path, i) == ColonsFrom(path, j)
    decreases j - i
  {
    if i < j {
      NoColonsFrom(path, i + 1, j);
    }
  }

  /** The node for a request path, with the values collected on the way; null when there is none. */
  method FindNode(nodes: seq<TreeNode>, path: string, params: seq<string>, ghost r: set<TreeNode>)
      returns (node: TreeNode?, values: seq<string>)
    requires ValidAll(nodes, r) && Labelled(Values(nodes, r))
    ensures node != null ==> node in r && node.Valid()
    ensures FindChild(Values(nodes, r), path, params) == if node == null then Missing else Found(node.Value(), values)
    decreases r, 1
  {
    ghost var v := Values(nodes, r);
    node, values := null, [];
    var i := 0;
    while i < |nodes|
      invariant 0 <= i <= |nodes| && node == null
      invariant Labelled(v[i..]) && FindChild(v, path, params) == FindChild(v[i..], path, params)
    {
      assert v[i] == nodes[i].Value();
      FindFrom(v, i, path, params);
      var done;
      done, node, values := TryNode(nodes[i], path, params);
      if done {
        return;
      }
      i := i + 1;
    }
  }

  lemma FindFrom(v: seq<Node>, i: nat, path: string, params: seq<string>)
    requires i < |v| && Labelled(v[i..])
    ensures v[i].s != "" && Labelled(v[i].children) && Labelled(v[i + 1..])
    ensures FindChild(v[i..], path, params) ==
              if TryOne(v[i], path, params).Stop? then TryOne(v[i], path, params).result else FindChild(v[i + 1..], path, params)
  {
    assert v[i..][0] == v[i] && v[i..][1..] == v[i + 1..];
    LabelledFrom(v[i..], 1);
  }

  /** The loop body of the search: whether it ends here, and with what. */
  method TryNode(n: TreeNode, path: string, params: seq<string>) returns (done: bool, node: TreeNode?, values: seq<string>)
    requires n.Valid() && n.s != "" && Labelled(n.Value().children)
    ensures node != null ==> done && node in n.repr && node.Valid()
    ensures TryOne(n.Value(), path, params) == if !done then Pass else Stop(if node == null then Missing else Found(node.Value(), values))
    decreases n.repr, 0
  {
    done, node, values := true, null, [];
    if n.s == ":" {
      var paramEnd := IndexByte(path, '/');
      if paramEnd != -1 {
        node, values := FindNode(n.children, path[paramEnd..], params + [path[..paramEnd]], n.repr - {n});
      } else if n.handlers != [] {
        node, values := n, params + [path];
      }
    } else if n.rootWildcard {
      node, values := n, params + [(if |path| < 2 then "/" + path else path)[1..]];
    } else if !(n.s <= path) {
      done := false;
    } else if |path| == |n.s| {
      if n.handlers != [] {
        node, values := n, params;
      }
    } else {
      var child, childValues := FindNode(n.children, path[|n.s|..], params, n.repr - {n});
      if child != null && child.handlers != [] {
        node, values := child, childValues;
      } else if n.s[|n.s| - 1] == '/' && !(n.root && (n.s == "/" || n.children != [])) {
        if n.handlers != [] {
          node, values := n, params + [path[|n.s|..]];
        }
      } else {
        done := false;
      }
    }
  }

  class Nodes {
    var nodes: seq<TreeNode>
    ghost var repr: set<TreeNode>

    /** The tree holds exactly `table`, after all of `patterns` have been offered. */
    ghost predicate Shows(table: Table, patterns: set<string>)
      reads this, repr
    {
      ValidAll(nodes, repr) && Represents(Values(nodes, repr), table, patterns)
    }

    constructor ()
      ensures Shows(map[], {}) && fresh(repr)
    {
      nodes, repr := [], {};
      EmptyRepresents();
    }

    /** Register a path. The error is returned exactly when its pattern has handlers already, and then nothing changes. */
    method Add(path: string, handlers: seq<Handler>, ghost table: Table, ghost patterns: set<string>) returns (duplicate: bool)
      requires Shows(table, patterns) && Plain(path)
      modifies this, repr
      ensures fresh(repr - old(repr))
      ensures Shows(Registered(table, path, handlers), patterns + {Strip(path).0})
      ensures duplicate == (handlers != [] && Strip(path).0 in table)
      ensures duplicate ==> Values(nodes, repr) == old(Values(nodes, repr))
    {
      ghost var before := Values(nodes, repr);
      duplicate := InsertPath(path, handlers);
      AddKeeps(before, table, patterns, path, handlers, Values(nodes, repr));
    }

    method InsertPath(path: string, handlers: seq<Handler>) returns (duplicate: bool)
      requires ValidAll(nodes, repr)
      modifies this`nodes, this`repr, repr
      ensures ValidAll(nodes, repr) && fresh(repr - old(repr))
      ensures var i := Insert(old(Values(nodes, repr)), path, handlers);
              duplicate == i.duplicate && if duplicate then Values(nodes, repr) == i.nodes else Prioritized(i.nodes, Values(nodes, repr))
    {
      var pattern, names := StripNames(path);
      duplicate := AddAll(pattern, names, handlers);
      if !duplicate {
        var sorted := Prioritize(nodes, repr);
        SetNodes(sorted, repr);
      }
    }

    method SetNodes(nodes': seq<TreeNode>, ghost repr': set<TreeNode>)
      requires ValidAll(nodes', repr')
      modifies this`nodes, this`repr
      ensures nodes == nodes' && repr == repr' && ValidAll(nodes, repr)
      ensures Values(nodes, repr) == old(Values(nodes', repr'))
    {
      ghost var v := Values(nodes', repr');
      nodes, repr := nodes', repr';
      assert Values(nodes, repr) == v;
    }

    /** The boundaries of a pattern, then the pattern itself. */
    method AddAll(pattern: string, names: seq<string>, handlers: seq<Handler>) returns (duplicate: bool)
      requires ValidAll(nodes, repr)
      modifies this`nodes, this`repr, repr
      ensures ValidAll(nodes, repr) && fresh(repr - old(repr))
      ensures AddResult(Values(nodes, repr), duplicate) ==
              RouteTree.AddTo(AddBoundaries(old(Values(nodes, repr)), pattern, ColonsFrom(pattern, 0)), pattern, names, handlers, true)
    {
      var ps := ColonPositions(pattern);
      ghost var goal := AddBoundaries(Values(nodes, repr), pattern, ps);
      for i := 0 to |ps|
        invariant ValidAll(nodes, repr) && fresh(repr - old(repr))
        invariant AddBoundaries(Values(nodes, repr), pattern, ps[i..]) == goal
      {
        assert ps[i..][0] == ps[i] && ps[i..][1..] == ps[i + 1..];
        AddAround(pattern, ps[i]);
      }
      var nodes';
      ghost var repr';
      nodes', duplicate, repr' := AddNodes(nodes, pattern, names, handlers, true, repr);
      SetNodes(nodes', repr');
    }

    /** The boundaries on both sides of the `:` at `idx`. */
    method AddAround(pattern: string, idx: nat)
      requires ValidAll(nodes, repr) && idx < |pattern|
      modifies this`nodes, this`repr, repr
      ensures ValidAll(nodes, repr) && fresh(repr - old(repr))
      ensures Values(nodes, repr) == Around(old(Values(nodes, repr)), pattern, idx)
    {
      var _ := AddBoundary(pattern[..idx]);
      if |pattern| > idx + 1 {
        var _ := AddBoundary(pattern[..idx + 1]);
      }
    }

    /** An insertion without handlers reports no error. */
    method AddBoundary(path: string) returns (duplicate: bool)
      requires ValidAll(nodes, repr)
      modifies this`nodes, this`repr, repr
      ensures ValidAll(nodes, repr) && fresh(repr - old(repr))
      ensures !duplicate && Values(nodes, repr) == RouteTree.AddTo(old(Values(nodes, repr)), path, [], [], true).nodes
    {
      NoHandlersNoError(Values(nodes, repr), path, [], true);
      var nodes';
      ghost var repr';
      nodes', duplicate, repr' := AddNodes(nodes, path, [], [], true, repr);
      SetNodes(nodes', repr');
    }

    /** Look a request path up, store its parameters and return the handlers; no handlers when nothing is found. */
    method Find(path: string, params: Store.Store, ghost table: Table, ghost patterns: set<string>) returns (handlers: seq<Handler>)
      requires Shows(table, patterns) && params.Valid() && CleanTable(table) && path != ""
      modifies params, params.buf
      ensures params.Valid()
      ensures handlers == [] ==> params.Contents() == old(params.Contents())
      ensures handlers != [] <==> IsFreeHit(table, patterns, path)
      ensures handlers != [] ==> Answered(table, patterns, path, handlers, old(params.Contents()), params.Contents())
      ensures NoClash(patterns) ==> (handlers != [] <==> IsHit(table, path))
      ensures NoClash(patterns) ==> forall key, values :: Hits(table, path, key, values) ==>
                FoundAs(table, key, values, handlers, old(params.Contents()), params.Contents())
    {
      ghost var before := params.Contents();
      var n, paramValues := FindRoute(path, table, patterns);
      if n == null {
        return [];
      }
      handlers := n.handlers;
      assert SavesTo(n.names, paramValues, n.wildcardName, before) == Store.SavedAll(before, n.names, paramValues);
      SetParams(n.names, paramValues, n.wildcardName, params);
    }

    method FindRoute(path: string, ghost table: Table, ghost patterns: set<string>) returns (n: TreeNode?, values: seq<string>)
      requires Shows(table, patterns) && CleanTable(table) && path != ""
      ensures n != null ==> n in repr && n.handlers != [] && |n.names| == |values|
      ensures n != null <==> IsFreeHit(table, patterns, path)
      ensures n != null ==> exists key :: FirstHit(table, patterns, path, key, values) && HitBy(table, path, key, values, n.names, n.handlers)
      ensures NoClash(patterns) ==> (n != null <==> IsHit(table, path))
      ensures NoClash(patterns) && n != null ==> forall key, vs :: Hits(table, path, key, vs) ==>
                vs == values && HitBy(table, path, key, values, n.names, n.handlers)
    {
      ghost var v := Values(nodes, repr);
      RepresentsLabelled(v, table, patterns);
      n, values := FindNode(nodes, path, [], repr);
      LookupExact(v, table, patterns, path);
      if NoClash(patterns) {
        LookupApart(v, table, patterns, path);
      }
      if n != null {
        ghost var key, _ := LookupSound(v, table, patterns, path);
        assert FirstHit(table, patterns, path, key, values) && HitBy(table, path, key, values, n.names, n.handlers);
      }
    }
  }

  ghost predicate HitBy(table: Table, path: string, key: string, values: seq<string>, names: seq<string>, handlers: seq<Handler>) {
    Hits(table, path, key, values) && table[key] == Entry(names, handlers)
  }

  /** The answer to a hit: its handlers, and its names stored with their values. */
  ghost predicate FoundAs(table: Table, key: string, values: seq<string>, handlers: seq<Handler>,
                          before: seq<Store.Entry>, after: seq<Store.Entry>)
  {
    key in table && handlers == table[key].handlers && |table[key].names| == |values|
    && after == Store.SavedAll(before, table[key].names, values)
  }

  /** The first free hit is answered. */
  ghost predicate Answered(table: Table, patterns: set<string>, path: string, handlers: seq<Handler>,
                           before: seq<Store.Entry>, after: seq<Store.Entry>)
  {
    exists key, values ::
      FirstHit(table, patterns, path, key, values) && FoundAs(table, key, values, handlers, before, after)
  }

  /** The store after the names took their values, and the wildcard name a value that is left over. */
  function SavesTo(names: seq<string>, values: seq<string>, wildcardName: string, es: seq<Store.Entry>): seq<Store.Entry>
    requires |names| <= |values|
  {
    var r := Store.SavedAll(es, names, values);
    if |values| > |names| then Store.Saved(r, wildcardName, values[|values| - 1], false) else r
  }

  /** A value left over, however many there are, is the last one, under the wildcard's name; the names before it have
      the first values. */
  lemma SavesLast(names: seq<string>, values: seq<string>, wildcardName: string, es: seq<Store.Entry>, k: nat)
    requires |names| < |values| && Store.Mutable(es)
    requires wildcardName !in names && forall i, j :: 0 <= i < j < |names| ==> names[i] != names[j]
    ensures var after := SavesTo(names, values, wildcardName, es);
            && Store.Looked(after, wildcardName) == [values[|values| - 1]]
            && (k < |names| ==> Store.Looked(after, names[k]) == [values[k]])
  {
    var r := Store.SavedAll(es, names, values);
    Store.SavedAllMutable(es, names, values);
    Store.SavedGet(r, wildcardName, values[|values| - 1], false, wildcardName);
    if k < |names| {
      Store.SavedAllGet(es, names, values, k);
      Store.SavedGet(r, wildcardName, values[|values| - 1], false, names[k]);
    }
  }

  method SetParams(names: seq<string>, values: seq<string>, wildcardName: string, params: Store.Store)
    requires params.Valid() && |names| <= |values|
    modifies params, params.buf
    ensures params.Valid()
    ensures params.Contents() == SavesTo(names, values, wildcardName, old(params.Contents()))
  {
    ghost var goal := Store.SavedAll(params.Contents(), names, values);
    for i := 0 to |names|
      invariant params.Valid() && (params.buf == old(params.buf) || fresh(params.buf))
      invariant Store.SavedAll(params.Contents(), names[i..], values[i..]) == goal
    {
      assert names[i..][1..] == names[i + 1..] && values[i..][1..] == values[i + 1..];
      params.Save(names[i], values[i], false);
    }
    if |values| > |names| {
      params.Save(wildcardName, values[|values| - 1], false);
    }
  }
}
