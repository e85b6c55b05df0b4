/** Looking a request path up, and what the answer means for the table. */
module RouteFind {
  import opened Options
  import opened Text
  import opened Patterns
  import opened RouteTree

  datatype FindResult = Missing | Found(node: Node, values: seq<string>)

  /** No label is empty, at any level. */
  ghost predicate Labelled(ns: seq<Node>)
    decreases ns
  {
    forall i :: 0 <= i < |ns| ==> ns[i].s != "" && Labelled(ns[i].children)
  }

  /** What one sibling says about a path: the search ends here, or goes on to the next one. */
  datatype Verdict = Pass | Stop(result: FindResult)

  /** The node for `path` and the values collected on the way, `params` first. */
  function FindChild(ns: seq<Node>, path: string, params: seq<string>): FindResult
    requires Labelled(ns)
    decreases ns
  {
    if ns == [] then Missing
    else
      match TryOne(ns[0], path, params)
      case Stop(result) => result
      case Pass => FindChild(ns[1..], path, params)
  }

  function TryOne(n: Node, path: string, params: seq<string>): Verdict
    requires n.s != "" && Labelled(n.children)
    decreases n
  {
    if n.s == ":" then
      var e := Upto(path, '/');
      if e == |path| then
        Stop(if n.handlers == [] then Missing else Found(n, params + [path]))
      else
        Stop(FindChild(n.children, path[e..], params + [path[..e]]))
    else if n.rootWildcard then
      Stop(Found(n, params + [(if |path| < 2 then "/" + path else path)[1..]]))
    else if !(n.s <= path) then
      Pass
    else if |path| == |n.s| then
      Stop(if n.handlers == [] then Missing else Found(n, params))
    else
      var child := FindChild(n.children, path[|n.s|..], params);
      if child.Found? && child.node.handlers != [] then
        Stop(child)
      else if n.s[|n.s| - 1] == '/' && !(n.root && (n.s == "/" || n.children != [])) then
        Stop(if n.handlers == [] then Missing else Found(n, params + [path[|n.s|..]]))
      else
        Pass
  }

  lemma {:induction false} ShapeLabelled(ns: seq<Node>, root: bool)
    requires Shape(ns, root)
    ensures Labelled(ns)
    decreases ns
  {
    forall i | 0 <= i < |ns|
      ensures ns[i].s != "" && Labelled(ns[i].children)
    {
      assert NodeShape(ns[i], root);
      ShapeLabelled(ns[i].children, false);
    }
  }

  // --------------------------------------------------------------------- soundness

  /** No registered pattern ends in `/`, except the root's own. */
  ghost predicate Clean(ns: seq<Node>, root: bool) {
    forall key :: Get(ns, key).Some? && key != "" && key[|key| - 1] == '/' ==> root && key == "/"
  }

  /** At every level the `:` stands last. */
  ghost predicate ColonsLast(ns: seq<Node>)
    decreases ns
  {
    && (forall i :: 0 <= i < |ns| - 1 ==> ns[i].s != ":")
    && (forall i :: 0 <= i < |ns| ==> ColonsLast(ns[i].children))
  }

  lemma ColonsTail(ns: seq<Node>)
    requires ColonsLast(ns) && ns != []
    ensures ColonsLast(ns[1..])
  {
  }

  /** What `key` is filled with `values` to spell `path`. */
  ghost predicate Spells(key: string, values: seq<string>, path: string) {
    Fits(key, values) && Fill(key, values) == path
  }

  /** A static sibling that keeps `path` from the `:` beside it: it takes the path whole, or ends in `/`. */
  predicate Blocks(m: Node, path: string) {
    && m.s != "" && m.s != ":" && m.s <= path
    && (m.s == path || (m.s[|m.s| - 1] == '/' && !(m.root && (m.s == "/" || m.children != []))))
  }

  /** Down the tree along `key`, no sibling of a `:` blocks what is left of `path`. */
  ghost predicate Clear(ns: seq<Node>, key: string, path: string)
    decreases ns
  {
    key == "" ||
    var i := Match(ns, key);
    i >= 0 &&
    if ns[i].s == ":" then
      (forall j :: 0 <= j < |ns| ==> !Blocks(ns[j], path)) && Clear(ns[i].children, key[1..], path[Upto(path, '/')..])
    else
      ns[i].s <= path && Clear(ns[i].children, key[|ns[i].s|..], path[|ns[i].s|..])
  }

  lemma ClearHere(ns: seq<Node>, root: bool, i: nat, rest: string, path: string)
    requires Shape(ns, root) && i < |ns| && ns[i].s != ":" && ns[i].s <= path
    requires Clear(ns[i].children, rest, path[|ns[i].s|..])
    ensures Clear(ns, ns[i].s + rest, path)
  {
    assert NodeShape(ns[i], root);
    var key := ns[i].s + rest;
    assert key[|ns[i].s|..] == rest;
    MatchIs(ns, key, i);
  }

  lemma MatchIs(ns: seq<Node>, key: string, i: nat)
    requires Level(ns) && i < |ns| && ns[i].s != "" && ns[i].s <= key
    ensures Match(ns, key) == i
  {
    assert ns[i].s[0] == key[0];
    var m := Match(ns, key);
    assert ns[m].s[0] == key[0];
  }

  /** A sibling in front that lets the path pass keeps what is clear behind it clear. */
  lemma ClearTail(ns: seq<Node>, root: bool, key: string, path: string)
    requires Shape(ns, root) && ns != [] && key != "" && !(ns[0].s <= key)
    ensures Clear(ns, key, path) <==>
              Clear(ns[1..], key, path) && (key[0] == ':' ==> !Blocks(ns[0], path))
  {
    var rest := ns[1..];
    assert forall j :: 0 < j < |ns| ==> ns[j] == rest[j - 1];
    assert forall j :: 0 <= j < |rest| ==> rest[j] == ns[j + 1];
    var i := Match(ns, key);
    if i >= 0 {
      assert NodeShape(ns[i], root);
      assert Match(rest, key) == i - 1;
      assert ns[i].s[0] == key[0];
    }
  }

  lemma TailGet(ns: seq<Node>, root: bool, key: string)
    requires Shape(ns, root) && ns != [] && Get(ns[1..], key).Some?
    ensures Get(ns, key) == Get(ns[1..], key)
  {
    var i := Match(ns[1..], key);
    assert ns[1..][i] == ns[i + 1];
    assert NodeShape(ns[i + 1], root) && key != "";
    Only(ns[1..], key, i);
    Only(ns, key, i + 1);
  }

  lemma CleanTail(ns: seq<Node>, root: bool)
    requires Shape(ns, root) && ns != [] && Clean(ns, root)
    ensures Shape(ns[1..], root) && Clean(ns[1..], root)
  {
    assert forall i :: 0 <= i < |ns[1..]| ==> ns[1..][i] == ns[i + 1];
    forall key | Get(ns[1..], key).Some?
      ensures Get(ns, key).Some?
    {
      TailGet(ns, root, key);
    }
  }

  lemma GetBelow(ns: seq<Node>, root: bool, i: nat, key: string)
    requires Shape(ns, root) && i < |ns| && key != ""
    ensures Get(ns, ns[i].s + key) == Get(ns[i].children, key)
  {
    assert NodeShape(ns[i], root);
    Only(ns, ns[i].s + key, i);
    assert (ns[i].s + key)[|ns[i].s|..] == key;
  }

  lemma CleanBelow(ns: seq<Node>, root: bool, i: nat)
    requires Shape(ns, root) && i < |ns| && Clean(ns, root)
    ensures Clean(ns[i].children, false)
  {
    var n := ns[i];
    assert NodeShape(n, root);
    forall key | Get(n.children, key).Some? && key != ""
      ensures key[|key| - 1] != '/'
    {
      GetBelow(ns, root, i, key);
      assert (n.s + key)[|n.s + key| - 1] == key[|key| - 1];
    }
  }

  /** Putting a label in front of what a lower level spells. */
  lemma SpellsLabel(s: string, key: string, values: seq<string>, path: string)
    requires ':' !in s && Spells(key, values, path) && key != ""
    ensures Spells(s + key, values, s + path)
  {
    FillPlain(s);
    FillConcat(s, key, [], values);
    assert [] + values == values;
  }

  /** Putting one parameter in front of what a lower level spells. */
  lemma SpellsColon(value: string, key: string, values: seq<string>, path: string)
    requires '/' !in value && Spells(key, values, path)
    requires key == "" ==> value != ""
    ensures Spells(":" + key, [value] + values, value + path)
  {
    Prepend(value, values);
    assert (":" + key)[1..] == key && ([value] + values)[1..] == values;
    var all := [value] + values;
    if values != [] {
      assert all[|all| - 1] == values[|values| - 1];
    }
    if key != "" {
      assert (":" + key)[|key|] == key[|key| - 1];
    }
  }

  lemma SpellsColonEnd(value: string)
    requires '/' !in value && value != ""
    ensures Spells(":", [value], value)
  {
    SpellsColon(value, "", [], "");
    assert ":" + "" == ":" && [value] + [] == [value] && value + "" == value;
  }

  lemma Rejoined(path: string, e: nat, params: seq<string>, values: seq<string>)
    requires e <= |path|
    ensures path[..e] + path[e..] == path
    ensures params + [path[..e]] + values == params + ([path[..e]] + values)
  {
  }

  /** `key` is registered, spells `path` with `values`, and nothing stands in its way. */
  ghost predicate Competes(ns: seq<Node>, path: string, key: string, values: seq<string>) {
    Get(ns, key).Some? && key != "" && Normal(key) && Spells(key, values, path) && Clear(ns, key, path)
  }

  /** `key` is `other`, with the same values, or has a parameter where `other` has a literal. */
  ghost predicate After(key: string, values: seq<string>, other: string, others: seq<string>) {
    (key == other && values == others) || Clash(key, other)
  }

  /** Nothing that competes for `path` comes before `first`. */
  ghost predicate Leads(ns: seq<Node>, path: string, first: string, values: seq<string>) {
    forall key, others :: Competes(ns, path, key, others) ==> After(key, others, first, values)
  }

  /** `r` is registered, under a pattern that the values added to `params` turn into `path`, with nothing in its way
      and nothing before it. */
  ghost predicate Justified(ns: seq<Node>, path: string, params: seq<string>, r: FindResult, key: string, values: seq<string>) {
    && r.Found? && r.node.handlers != []
    && r.values == params + values
    && Get(ns, key) == Some(Entry(r.node.names, r.node.handlers))
    && key != "" && Spells(key, values, path) && Clear(ns, key, path)
    && Leads(ns, path, key, values)
  }

  lemma AfterBehind(s: string, key: string, values: seq<string>, other: string, others: seq<string>)
    requires After(key, values, other, others)
    ensures After(s + key, values, s + other, others)
  {
    if Clash(key, other) {
      ClashBelow(s, key, other);
    }
  }

  // ----------------------------------------------- what competes at one sibling, or behind it

  lemma CompetesTail(ns: seq<Node>, root: bool, path: string, key: string, values: seq<string>)
    requires Shape(ns, root) && ns != [] && Competes(ns, path, key, values) && !(ns[0].s <= key)
    ensures Competes(ns[1..], path, key, values)
  {
    ClearTail(ns, root, key, path);
    var i := Match(ns, key);
    assert Match(ns[1..], key) == i - 1 && ns[1..][i - 1] == ns[i];
  }

  /** A static sibling takes `path` only from a key behind a `:`. */
  lemma Aside(ns: seq<Node>, root: bool, path: string, key: string, values: seq<string>)
    requires Shape(ns, root) && ns != [] && Competes(ns, path, key, values)
    requires !(ns[0].s <= key) && ns[0].s <= path
    ensures key[0] == ':' && (ns[0].s != ":" ==> !Blocks(ns[0], path))
  {
    var i := Match(ns, key);
    assert NodeShape(ns[i], root) && ns[i].s[0] == key[0];
    if ns[i].s != ":" {
      assert false;
    }
  }

  lemma CompetesBelow(ns: seq<Node>, root: bool, path: string, key: string, values: seq<string>)
    requires Shape(ns, root) && ns != [] && ns[0].s != ":" && ns[0].s <= key && Competes(ns, path, key, values)
    ensures ns[0].s <= path
    ensures key == ns[0].s <==> path == ns[0].s
    ensures key == ns[0].s ==> values == []
    ensures key != ns[0].s ==> Competes(ns[0].children, path[|ns[0].s|..], key[|ns[0].s|..], values)
  {
    var s, rest := ns[0].s, key[|ns[0].s|..];
    assert NodeShape(ns[0], root) && key == s + rest;
    MatchIs(ns, key, 0);
    if rest == "" {
      FillPlain(s);
    } else {
      FillBelow(s, rest, values);
      NormalBehind(key, |s|);
      FillNonEmpty(rest, values);
      GetBelow(ns, root, 0, rest);
      assert path[|s|..] == Fill(rest, values);
    }
  }

  lemma NormalBehind(key: string, n: nat)
    requires Normal(key) && n <= |key|
    ensures Normal(key[n..])
  {
    assert forall j :: 0 <= j < |key[n..]| ==> key[n..][j] == key[n + j];
  }

  lemma CompetesColon(ns: seq<Node>, root: bool, path: string, key: string, values: seq<string>)
    requires Shape(ns, root) && ns != [] && ns[0].s == ":" && ns[0].s <= key && Competes(ns, path, key, values)
    ensures values != [] && path[..Upto(path, '/')] == values[0]
    ensures key == ":" <==> Upto(path, '/') == |path|
    ensures key == ":" ==> values == [path]
    ensures key != ":" ==> Competes(ns[0].children, path[Upto(path, '/')..], key[1..], values[1..])
  {
    assert NodeShape(ns[0], root);
    MatchIs(ns, key, 0);
    FillColon(key, values);
    assert ":" + key[1..] == key;
    if key != ":" {
      GetBelow(ns, root, 0, key[1..]);
    }
  }

  /** The first sibling is done with the path, or leaves it to those behind it. */
  lemma Unblocked(ns: seq<Node>, path: string, params: seq<string>)
    requires Labelled(ns) && ns != [] && ns[0].s != ":" && !ns[0].rootWildcard && !Blocks(ns[0], path)
    ensures var n := ns[0];
            if n.s <= path && FindChild(n.children, path[|n.s|..], params).Found?
               && FindChild(n.children, path[|n.s|..], params).node.handlers != []
            then FindChild(ns, path, params) == FindChild(n.children, path[|n.s|..], params)
            else Labelled(ns[1..]) && FindChild(ns, path, params) == FindChild(ns[1..], path, params)
  {
    LabelledFrom(ns, 1);
  }

  lemma TakenHere(ns: seq<Node>, path: string, params: seq<string>)
    requires Labelled(ns) && ns != [] && ns[0].s == path && path != ":" && !ns[0].rootWildcard && Get(ns, path).Some?
    ensures FindChild(ns, path, params) == Found(ns[0], params) && ns[0].handlers != []
  {
    assert Match(ns, path) == 0;
  }

  lemma TakenBelow(ns: seq<Node>, path: string, params: seq<string>)
    requires Labelled(ns) && ns != [] && ns[0].s != ":" && !ns[0].rootWildcard && ns[0].s < path
    requires var child := FindChild(ns[0].children, path[|ns[0].s|..], params); child.Found? && child.node.handlers != []
    ensures FindChild(ns, path, params) == FindChild(ns[0].children, path[|ns[0].s|..], params)
  {
  }

  /** Where something competes, something is found. */
  lemma {:induction false} FoundIf(ns: seq<Node>, root: bool, path: string, params: seq<string>, key: string, values: seq<string>)
    requires Shape(ns, root) && Labelled(ns) && ColonsLast(ns) && Competes(ns, path, key, values)
    ensures FindChild(ns, path, params).Found? && FindChild(ns, path, params).node.handlers != []
    decreases ns
  {
    var n := ns[0];
    assert NodeShape(n, root);
    if n.s == ":" {
      assert n.s <= key;
      CompetesColon(ns, root, path, key, values);
      if key != ":" {
        var e := Upto(path, '/');
        FoundIf(n.children, false, path[e..], params + [path[..e]], key[1..], values[1..]);
      } else {
        assert GetNode(n, key).Some?;
      }
    } else if n.s <= key {
      CompetesBelow(ns, root, path, key, values);
      MatchIs(ns, key, 0);
      if key != n.s {
        FoundIf(n.children, false, path[|n.s|..], params, key[|n.s|..], values);
        TakenBelow(ns, path, params);
      } else {
        TakenHere(ns, key, params);
      }
    } else {
      if n.s <= path {
        Aside(ns, root, path, key, values);
      }
      Unblocked(ns, path, params);
      CompetesTail(ns, root, path, key, values);
      ShapeTail(ns, root);
      ColonsTail(ns);
      LabelledFrom(ns, 1);
      FoundIf(ns[1..], root, path, params, key, values);
    }
  }

  lemma ShapeTail(ns: seq<Node>, root: bool)
    requires Shape(ns, root) && ns != []
    ensures Shape(ns[1..], root)
  {
    assert forall i :: 0 <= i < |ns[1..]| ==> ns[1..][i] == ns[i + 1];
  }

  // ------------------------------------------------------------- what is found is first

  /** Whatever lookup finds is registered, under a pattern that its values turn into the request path, and comes
      before everything else that competes for the path. */
  lemma {:induction false} FindSound(ns: seq<Node>, root: bool, path: string, params: seq<string>)
      returns (key: string, values: seq<string>)
    requires Shape(ns, root) && Labelled(ns) && Clean(ns, root) && ColonsLast(ns) && path != ""
    requires FindChild(ns, path, params).Found?
    ensures Justified(ns, path, params, FindChild(ns, path, params), key, values)
    decreases ns, 1
  {
    var n := ns[0];
    assert NodeShape(n, root);
    if n.s == ":" {
      key, values := SoundColon(ns, root, path, params);
    } else if !(n.s <= path) {
      key, values := SoundTail(ns, root, path, params);
    } else if |path| == |n.s| {
      key, values := path, [];
      SoundHere(ns, root, path, params);
    } else {
      var child := FindChild(n.children, path[|n.s|..], params);
      if child.Found? && child.node.handlers != [] {
        key, values := SoundBelow(ns, root, path, params);
      } else {
        Only(ns, n.s, 0);
        key, values := SoundTail(ns, root, path, params);
      }
    }
  }

  lemma SoundHere(ns: seq<Node>, root: bool, path: string, params: seq<string>)
    requires Shape(ns, root) && Labelled(ns) && ns != [] && ns[0].s != ":" && ns[0].s == path
    requires FindChild(ns, path, params).Found?
    ensures Justified(ns, path, params, FindChild(ns, path, params), path, [])
  {
    assert NodeShape(ns[0], root);
    Only(ns, path, 0);
    FillPlain(path);
    assert params + [] == params && ns[0].s + "" == path && path[|path|..] == "";
    ClearHere(ns, root, 0, "", path);
    forall key, others | Competes(ns, path, key, others)
      ensures After(key, others, path, [])
    {
      if ns[0].s <= key {
        CompetesBelow(ns, root, path, key, others);
      } else {
        Aside(ns, root, path, key, others);
      }
    }
  }

  lemma {:induction false} SoundTail(ns: seq<Node>, root: bool, path: string, params: seq<string>)
      returns (key: string, values: seq<string>)
    requires Shape(ns, root) && ns != [] && Labelled(ns) && Labelled(ns[1..]) && Clean(ns, root) && ColonsLast(ns) && path != ""
    requires FindChild(ns[1..], path, params).Found? && ns[0].s != ":" && !Blocks(ns[0], path)
    requires ns[0].s <= path ==>
               var child := FindChild(ns[0].children, path[|ns[0].s|..], params); !child.Found? || child.node.handlers == []
    ensures Justified(ns, path, params, FindChild(ns[1..], path, params), key, values)
    decreases ns, 0
  {
    CleanTail(ns, root);
    ColonsTail(ns);
    key, values := FindSound(ns[1..], root, path, params);
    TailGet(ns, root, key);
    TailApart(ns, root, key);
    ClearTail(ns, root, key, path);
    forall k, others | Competes(ns, path, k, others)
      ensures After(k, others, key, values)
    {
      NotUnder(ns, root, path, params, k, others);
      CompetesTail(ns, root, path, k, others);
    }
  }

  /** Nothing competes below a sibling that was passed. */
  lemma NotUnder(ns: seq<Node>, root: bool, path: string, params: seq<string>, key: string, values: seq<string>)
    requires Shape(ns, root) && ns != [] && Labelled(ns) && ColonsLast(ns)
    requires ns[0].s != ":" && !Blocks(ns[0], path) && Competes(ns, path, key, values)
    requires ns[0].s <= path ==>
               var child := FindChild(ns[0].children, path[|ns[0].s|..], params); !child.Found? || child.node.handlers == []
    ensures !(ns[0].s <= key)
  {
    assert NodeShape(ns[0], root);
    if ns[0].s <= key {
      CompetesBelow(ns, root, path, key, values);
      FoundIf(ns[0].children, false, path[|ns[0].s|..], params, key[|ns[0].s|..], values);
    }
  }

  /** A key of the siblings behind the first does not start with the first's label. */
  lemma TailApart(ns: seq<Node>, root: bool, key: string)
    requires Shape(ns, root) && ns != [] && Get(ns[1..], key).Some?
    ensures key != "" && !(ns[0].s <= key)
  {
    var i := Match(ns[1..], key);
    assert ns[1..][i] == ns[i + 1];
    assert NodeShape(ns[i + 1], root) && ns[i + 1].s[0] == key[0];
    assert ns[0].s[0] != ns[i + 1].s[0];
  }

  lemma {:induction false} SoundColon(ns: seq<Node>, root: bool, path: string, params: seq<string>)
      returns (key: string, values: seq<string>)
    requires Shape(ns, root) && Labelled(ns) && Clean(ns, root) && ColonsLast(ns) && path != ""
    requires ns != [] && ns[0].s == ":" && FindChild(ns, path, params).Found?
    ensures Justified(ns, path, params, FindChild(ns, path, params), key, values)
    decreases ns, 0
  {
    var n, e := ns[0], Upto(path, '/');
    assert NodeShape(n, root);
    if e == |path| {
      key, values := ":", [path];
      Only(ns, key, 0);
      assert path[..e] == path;
      SpellsColonEnd(path);
      ClearColon(ns, root, "", path);
    } else {
      CleanBelow(ns, root, 0);
      var k, vs := FindSound(n.children, false, path[e..], params + [path[..e]]);
      key, values := ":" + k, [path[..e]] + vs;
      GetBelow(ns, root, 0, k);
      SpellsColon(path[..e], k, vs, path[e..]);
      Rejoined(path, e, params, vs);
      ClearColon(ns, root, k, path);
    }
    forall other, others | Competes(ns, path, other, others)
      ensures After(other, others, key, values)
    {
      OnlyColon(ns, other);
      AfterAtColon(ns, root, path, key, values, other, others);
    }
  }

  lemma AfterAtColon(ns: seq<Node>, root: bool, path: string, key: string, values: seq<string>, other: string, others: seq<string>)
    requires Shape(ns, root) && ns != [] && ns[0].s == ":" && ns[0].s <= other && Competes(ns, path, other, others)
    requires key != "" && key[0] == ':' && values != []
    requires var e := Upto(path, '/');
             if e == |path| then key == ":" && values == [path]
             else path[..e] == values[0] && Leads(ns[0].children, path[e..], key[1..], values[1..])
    ensures After(other, others, key, values)
  {
    CompetesColon(ns, root, path, other, others);
    if other != ":" {
      AfterColon(key, values, other, others);
    }
  }

  lemma OnlyColon(ns: seq<Node>, key: string)
    requires ns != [] && ns[0].s == ":" && ColonsLast(ns) && Get(ns, key).Some?
    ensures ns[0].s <= key
  {
    assert |ns| == 1;
  }

  lemma AfterColon(key: string, values: seq<string>, other: string, others: seq<string>)
    requires key != "" && key[0] == ':' && other != "" && other[0] == ':'
    requires values != [] && others != [] && values[0] == others[0]
    requires After(other[1..], others[1..], key[1..], values[1..])
    ensures After(other, others, key, values)
  {
    AfterBehind(":", other[1..], others[1..], key[1..], values[1..]);
    assert ":" + other[1..] == other && ":" + key[1..] == key;
    assert [values[0]] + values[1..] == values && [others[0]] + others[1..] == others;
  }

  /** Nothing stands before a `:` in front, and nothing behind it is looked at. */
  lemma ClearColon(ns: seq<Node>, root: bool, rest: string, path: string)
    requires Shape(ns, root) && ns != [] && ns[0].s == ":" && ColonsLast(ns)
    requires Clear(ns[0].children, rest, path[Upto(path, '/')..])
    ensures Clear(ns, ":" + rest, path)
  {
    assert |ns| == 1;
    assert (":" + rest)[1..] == rest;
    MatchIs(ns, ":" + rest, 0);
  }

  lemma {:induction false} SoundBelow(ns: seq<Node>, root: bool, path: string, params: seq<string>)
      returns (key: string, values: seq<string>)
    requires Shape(ns, root) && Labelled(ns) && Clean(ns, root) && ColonsLast(ns)
    requires ns != [] && ns[0].s != ":" && ns[0].s < path
    requires FindChild(ns[0].children, path[|ns[0].s|..], params).Found?
    ensures Justified(ns, path, params, FindChild(ns[0].children, path[|ns[0].s|..], params), key, values)
    decreases ns, 0
  {
    var n, rest := ns[0], path[|ns[0].s|..];
    assert NodeShape(n, root);
    CleanBelow(ns, root, 0);
    var k;
    k, values := FindSound(n.children, false, rest, params);
    key := n.s + k;
    GetBelow(ns, root, 0, k);
    SpellsLabel(n.s, k, values, rest);
    assert n.s + rest == path;
    ClearHere(ns, root, 0, k, path);
    forall other, others | Competes(ns, path, other, others)
      ensures After(other, others, key, values)
    {
      AfterBelow(ns, root, path, k, values, other, others);
    }
  }

  lemma AfterBelow(ns: seq<Node>, root: bool, path: string, k: string, values: seq<string>, other: string, others: seq<string>)
    requires Shape(ns, root) && ns != [] && ns[0].s != ":" && ns[0].s < path
    requires Leads(ns[0].children, path[|ns[0].s|..], k, values) && Competes(ns, path, other, others)
    ensures After(other, others, ns[0].s + k, values)
  {
    var s := ns[0].s;
    assert NodeShape(ns[0], root);
    if s <= other {
      CompetesBelow(ns, root, path, other, others);
      AfterBehind(s, other[|s|..], others, k, values);
      assert s + other[|s|..] == other;
    } else {
      Aside(ns, root, path, other, others);
      assert ClashAt(other, s + k, 0);
    }
  }

  // ------------------------------------------------------------------ completeness

  /** No level has both a `:` and a static sibling. */
  ghost predicate Apart(ns: seq<Node>)
    decreases ns
  {
    && (forall i, j :: 0 <= i < |ns| && 0 <= j < |ns| && ns[i].s == ":" ==> ns[j].s == ":")
    && (forall i :: 0 <= i < |ns| ==> Apart(ns[i].children))
  }

  /** Siblings that cannot match are stepped over. */
  lemma {:induction false} SkipTo(ns: seq<Node>, i: nat, path: string, params: seq<string>)
    requires Labelled(ns) && i <= |ns| && Labelled(ns[i..])
    requires forall j :: 0 <= j < i ==> ns[j].s != ":" && !ns[j].rootWildcard && !(ns[j].s <= path)
    ensures FindChild(ns, path, params) == FindChild(ns[i..], path, params)
    decreases i
  {
    if i == 0 {
      assert ns[i..] == ns;
    } else {
      assert ns[1..][i - 1..] == ns[i..];
      SkipTo(ns[1..], i - 1, path, params);
    }
  }

  /** The values of a key whose label is static are those of the rest. */
  lemma FillBelow(s: string, rest: string, values: seq<string>)
    requires ':' !in s && rest != "" && Fits(s + rest, values)
    ensures Fits(rest, values) && Fill(s + rest, values) == s + Fill(rest, values)
  {
    FillPlain(s);
    CountConcat(s, rest, ':');
    FillConcat(s, rest, [], values);
    assert [] + values == values;
    LastByte(s, rest);
  }

  lemma LastByte(s: string, rest: string)
    requires rest != ""
    ensures s + rest != "" && (s + rest)[|s + rest| - 1] == rest[|rest| - 1]
  {
  }

  lemma FillColon(key: string, values: seq<string>)
    requires key != "" && key[0] == ':' && Fits(key, values) && Normal(key)
    ensures values != [] && '/' !in values[0]
    ensures Count(key[1..], ':') == |values[1..]| && Fill(key, values) == values[0] + Fill(key[1..], values[1..])
    ensures Upto(Fill(key, values), '/') == |values[0]|
    ensures key[1..] == "" ==> Fill(key, values) == values[0] != ""
    ensures key[1..] != "" ==> Fits(key[1..], values[1..]) && Normal(key[1..]) && Fill(key[1..], values[1..]) != ""
  {
    var rest, vs := key[1..], values[1..];
    if rest != "" {
      assert rest[0] == key[1] == '/';
      assert rest[|rest| - 1] == key[|key| - 1];
      assert forall j :: 0 <= j < |vs| ==> vs[j] == values[j + 1];
    } else {
      assert key == ":";
    }
    UptoIs(values[0], Fill(rest, vs), '/');
  }

  lemma FillNonEmpty(key: string, values: seq<string>)
    requires key != "" && Fits(key, values) && Normal(key)
    ensures Fill(key, values) != ""
  {
    if key[0] == ':' {
      FillColon(key, values);
    }
  }

  /** Lookup of a spelled pattern answers with that pattern's entry and the values in order. */
  ghost predicate Answers(ns: seq<Node>, key: string, values: seq<string>, params: seq<string>)
    requires Labelled(ns) && Count(key, ':') == |values|
  {
    var r := FindChild(ns, Fill(key, values), params);
    r.Found? && r.values == params + values && Get(ns, key) == Some(Entry(r.node.names, r.node.handlers))
    && r.node.handlers != []
  }

  lemma {:induction false} FindComplete(ns: seq<Node>, root: bool, key: string, values: seq<string>, params: seq<string>)
    requires Shape(ns, root) && Labelled(ns) && Apart(ns)
    requires Get(ns, key).Some? && key != "" && Normal(key) && Fits(key, values)
    ensures Answers(ns, key, values, params)
    decreases ns, 1
  {
    var i := Match(ns, key);
    assert NodeShape(ns[i], root);
    if ns[i].s == ":" {
      CompleteColon(ns, root, key, values, params);
    } else {
      CompleteStatic(ns, root, i, key, values, params);
    }
  }

  lemma {:induction false} CompleteColon(ns: seq<Node>, root: bool, key: string, values: seq<string>, params: seq<string>)
    requires Shape(ns, root) && Labelled(ns) && Apart(ns)
    requires Get(ns, key).Some? && key != "" && Normal(key) && Fits(key, values)
    requires ns[Match(ns, key)].s == ":"
    ensures Answers(ns, key, values, params)
    decreases ns, 0
  {
    var i := Match(ns, key);
    assert ns[0].s == ":" && ns[0].s[0] == ns[i].s[0];
    var n, rest := ns[0], key[1..];
    assert NodeShape(n, root);
    FillColon(key, values);
    var path := Fill(key, values);
    var e := Upto(path, '/');
    if rest == "" {
      assert params + values == params + [path];
    } else {
      FindComplete(n.children, false, rest, values[1..], params + [values[0]]);
      assert path[e..] == Fill(rest, values[1..]) && path[..e] == values[0];
      assert params + [values[0]] + values[1..] == params + values;
      assert e < |path|;
    }
  }

  lemma {:induction false} CompleteStatic(ns: seq<Node>, root: bool, i: nat, key: string, values: seq<string>, params: seq<string>)
    requires Shape(ns, root) && Labelled(ns) && Apart(ns)
    requires Get(ns, key).Some? && key != "" && Normal(key) && Fits(key, values)
    requires i == Match(ns, key) && i < |ns| && ns[i].s != ":"
    ensures Answers(ns, key, values, params)
    decreases ns, 0
  {
    var n, rest := ns[i], key[|ns[i].s|..];
    assert NodeShape(n, root);
    assert key == n.s + rest;
    var path := Fill(key, values);
    if rest == "" {
      FillPlain(n.s);
      assert key == n.s && values == [] && path == n.s;
      assert params + values == params;
    } else {
      FillBelow(n.s, rest, values);
      assert Normal(rest) by {
        assert forall j :: 0 <= j < |rest| ==> rest[j] == key[|n.s| + j];
      }
      FillNonEmpty(rest, values);
      FindComplete(n.children, false, rest, values, params);
      assert path[|n.s|..] == Fill(rest, values);
    }
    assert n.s <= path && n.s[0] == path[0];
    forall j | 0 <= j < i
      ensures ns[j].s != ":" && !(ns[j].s <= path)
    {
      assert ns[j].s[0] != ns[i].s[0];
    }
    assert ns[i..][0] == n;
    LabelledFrom(ns, i);
    SkipTo(ns, i, path, params);
  }

  lemma LabelledFrom(ns: seq<Node>, i: nat)
    requires Labelled(ns) && i <= |ns|
    ensures Labelled(ns[i..])
  {
    assert forall j :: 0 <= j < |ns[i..]| ==> ns[i..][j] == ns[i + j];
  }
}
