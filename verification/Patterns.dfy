/** Route paths, the patterns they normalise to, and the request paths a pattern spells. */
module Patterns {
  import opened Text

  /** The pattern of a path (every name after a `:` removed) and the removed names. */
  function Strip(path: string): (string, seq<string>)
    decreases |path|
  {
    var i := Upto(path, ':');
    if i == |path| then (path, [])
    else
      var tail := path[i + 1..];
      var e := Upto(tail, '/');
      var (pattern, names) := Strip(tail[e..]);
      (path[..i] + ":" + pattern, [tail[..e]] + names)
  }

  /** Every `:` of a pattern is followed by `/` or ends it. */
  ghost predicate Normal(pattern: string) {
    forall j :: 0 <= j && j + 1 < |pattern| && pattern[j] == ':' ==> pattern[j + 1] == '/'
  }

  /** The string a pattern spells when its `:`s stand for `values`, in order. */
  function Fill(pattern: string, values: seq<string>): string
    requires Count(pattern, ':') == |values|
  {
    if pattern == "" then ""
    else if pattern[0] == ':' then values[0] + Fill(pattern[1..], values[1..])
    else [pattern[0]] + Fill(pattern[1..], values)
  }

  /** Each value put back behind its `:`. */
  function Marked(values: seq<string>): (r: seq<string>)
    ensures |r| == |values|
  {
    seq(|values|, i requires 0 <= i < |values| => ":" + values[i])
  }

  ghost predicate NoSlash(values: seq<string>) {
    forall i :: 0 <= i < |values| ==> '/' !in values[i]
  }

  /** Values a request can carry for `pattern`: one each, without `/`, the last one not empty when it ends the path. */
  ghost predicate Fits(pattern: string, values: seq<string>) {
    && Count(pattern, ':') == |values|
    && NoSlash(values)
    && (pattern != "" && pattern[|pattern| - 1] == ':' && values != [] ==> values[|values| - 1] != "")
  }

  lemma Prepend(v: string, values: seq<string>)
    ensures Marked([v] + values) == [":" + v] + Marked(values)
    ensures NoSlash([v] + values) <==> '/' !in v && NoSlash(values)
  {
    var all := [v] + values;
    assert all[0] == v && all[1..] == values;
    if NoSlash(all) {
      assert '/' !in all[0];
      assert forall i :: 0 <= i < |values| ==> values[i] == all[i + 1];
    }
    if '/' !in v && NoSlash(values) {
      forall i | 0 <= i < |all|
        ensures '/' !in all[i]
      {
        if i > 0 {
          assert all[i] == values[i - 1];
        }
      }
    }
  }

  lemma {:induction false} FillConcat(a: string, b: string, va: seq<string>, vb: seq<string>)
    requires Count(a, ':') == |va| && Count(b, ':') == |vb|
    ensures Count(a + b, ':') == |va + vb|
    ensures Fill(a + b, va + vb) == Fill(a, va) + Fill(b, vb)
  {
    CountConcat(a, b, ':');
    if a == "" {
      assert a + b == b && va + vb == vb;
    } else {
      var c, rest := a[0], a[1..];
      assert (a + b)[0] == c && (a + b)[1..] == rest + b;
      CountConcat(rest, b, ':');
      if c == ':' {
        assert (va + vb)[0] == va[0] && (va + vb)[1..] == va[1..] + vb;
        FillConcat(rest, b, va[1..], vb);
        assert Fill(a + b, va + vb) == va[0] + (Fill(rest, va[1..]) + Fill(b, vb));
      } else {
        FillConcat(rest, b, va, vb);
        assert Fill(a + b, va + vb) == [c] + (Fill(rest, va) + Fill(b, vb));
      }
    }
  }

  /** A string without `:` spells itself. */
  lemma {:induction false} FillPlain(a: string)
    requires ':' !in a
    ensures Count(a, ':') == 0 && Fill(a, []) == a
  {
    if a != "" {
      FillPlain(a[1..]);
    }
  }

  /** A literal start, one parameter, and the rest. */
  lemma FillParam(head: string, pattern: string, value: string, values: seq<string>)
    requires ':' !in head && Count(pattern, ':') == |values|
    ensures Count(head + ":" + pattern, ':') == 1 + |values|
    ensures Fill(head + ":" + pattern, [value] + values) == head + value + Fill(pattern, values)
  {
    var rest, all := ":" + pattern, [value] + values;
    FillPlain(head);
    FillHead(pattern, value, values);
    FillConcat(head, rest, [], all);
    Assoc(head, ":", pattern);
    Assoc(head, value, Fill(pattern, values));
    assert [] + all == all;
  }

  lemma FillHead(pattern: string, value: string, values: seq<string>)
    requires Count(pattern, ':') == |values|
    ensures Count(":" + pattern, ':') == 1 + |values|
    ensures Fill(":" + pattern, [value] + values) == value + Fill(pattern, values)
  {
    assert (":" + pattern)[1..] == pattern && ([value] + values)[1..] == values;
  }

  lemma Assoc(a: string, b: string, c: string)
    ensures a + b + c == a + (b + c)
  {
  }

  lemma NormalParam(head: string, pattern: string)
    requires ':' !in head && Normal(pattern) && (pattern != "" ==> pattern[0] == '/')
    ensures Normal(head + ":" + pattern)
  {
    var p := head + ":" + pattern;
    forall j | 0 <= j && j + 1 < |p| && p[j] == ':'
      ensures p[j + 1] == '/'
    {
      var k := j - |head| - 1;
      assert j >= |head|;
      if k >= 0 {
        assert p[j] == pattern[k] && p[j + 1] == pattern[k + 1];
      }
    }
  }

  /** Normalising keeps the names apart from a normal pattern, and putting them back gives the path again. */
  lemma {:induction false} StripSpec(path: string)
    ensures Count(Strip(path).0, ':') == |Strip(path).1|
    ensures Fill(Strip(path).0, Marked(Strip(path).1)) == path
    ensures Normal(Strip(path).0) && NoSlash(Strip(path).1)
    ensures path != "" ==> Strip(path).0 != "" && Strip(path).0[0] == path[0]
    decreases |path|
  {
    var i := Upto(path, ':');
    if i == |path| {
      assert path[..i] == path;
      FillPlain(path);
      assert Marked([]) == [];
    } else {
      var head, tail := path[..i], path[i + 1..];
      var e := Upto(tail, '/');
      var name, rest := tail[..e], tail[e..];
      StripSpec(rest);
      NormalParam(head, Strip(rest).0);
      Prepend(name, Strip(rest).1);
      StripStep(path, i, e, Strip(rest).0, Strip(rest).1);
    }
  }

  lemma StripStep(path: string, i: nat, e: nat, pattern: string, names: seq<string>)
    requires i < |path| && path[i] == ':' && ':' !in path[..i] && i + 1 + e <= |path|
    requires Count(pattern, ':') == |names| && Fill(pattern, Marked(names)) == path[i + 1..][e..]
    ensures Count(path[..i] + ":" + pattern, ':') == 1 + |names|
    ensures Fill(path[..i] + ":" + pattern, Marked([path[i + 1..][..e]] + names)) == path
  {
    var head, name := path[..i], path[i + 1..][..e];
    Prepend(name, names);
    FillParam(head, pattern, ":" + name, Marked(names));
    Rejoin(path, i, e);
  }

  lemma Rejoin(path: string, i: nat, e: nat)
    requires i < |path| && path[i] == ':' && i + 1 + e <= |path|
    ensures path[..i] + (":" + path[i + 1..][..e]) + path[i + 1..][e..] == path
  {
    var tail := path[i + 1..];
    assert tail == tail[..e] + tail[e..];
    Regroup(path[..i], ":", tail[..e], tail[e..]);
    assert path == path[..i] + ":" + tail;
  }

  // ------------------------------------------------------ patterns that overlap

  /** At `j` one has a parameter where the other has a literal, after the same start. */
  ghost predicate ClashAt(a: string, b: string, j: nat) {
    j < |a| && j < |b| && a[..j] == b[..j] && a[j] == ':' && b[j] != ':'
  }

  ghost predicate Clash(a: string, b: string) {
    exists j: nat :: ClashAt(a, b, j)
  }

  lemma ClashBelow(s: string, a: string, b: string)
    requires Clash(a, b)
    ensures Clash(s + a, s + b)
  {
    var j: nat :| ClashAt(a, b, j);
    assert (s + a)[..|s| + j] == s + a[..j] && (s + b)[..|s| + j] == s + b[..j];
    assert ClashAt(s + a, s + b, |s| + j);
  }

  /** Two keys never clash both ways. */
  lemma ClashOneWay(a: string, b: string)
    requires Clash(a, b)
    ensures a != b && !Clash(b, a)
  {
    var j: nat :| ClashAt(a, b, j);
    assert forall k :: 0 <= k < j ==> a[k] == a[..j][k] && b[k] == b[..j][k];
    assert forall k :: j < k <= |a| && k <= |b| ==> a[..k][j] == a[j] && b[..k][j] == b[j];
  }
}
