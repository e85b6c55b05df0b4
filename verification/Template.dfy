/** Route templates: reading every `{...}` part of a path and compiling the path for the tree. */
module Template {
  import opened Options
  import opened Text
  import opened Segments
  import opened MacroLexer
  import opened MacroParser

  // --------------------------------------------------------------- what the code does

  /** A parameter of a template: its source and what it was parsed to. */
  datatype Param = Param(src: string, st: State)

  datatype Reading = Forever | BadParam(src: string, errors: seq<ParseError>) | PathInside(src: string) | Accepted(params: seq<Param>)

  predicate IsMacro(part: string) {
    part != "" && part[0] == '{' && part[|part| - 1] == '}'
  }

  function Also(p: Param, later: Reading): Reading {
    if later.Accepted? then Accepted([p] + later.params) else later
  }

  function ReadParts(parts: seq<string>): Reading {
    if parts == [] then Accepted([])
    else if !IsMacro(parts[0]) then ReadParts(parts[1..])
    else
      match ParseParam(parts[0])
      case Endless => Forever
      case Parsed(st) =>
        if st.errors != [] then BadParam(parts[0], st.errors)
        else if st.typ == Path && |parts| > 1 then PathInside(parts[0])
        else Also(Param(parts[0], st), ReadParts(parts[1..]))
  }

  /** Read the template `fullpath`; on some, the lexer never stops. */
  method ReadTemplate(fullpath: string) returns (r: Reading)
    requires !ReadParts(Split(fullpath, '/')).Forever?
    ensures r == ReadParts(Split(fullpath, '/'))
  {
    var parts := Split(fullpath, '/');
    var p := new ParamParser("");
    var params := [];
    for i := 0 to |parts|
      invariant fresh(p)
      invariant ReadParts(parts) == Prefixed(params, ReadParts(parts[i..]))
    {
      var s := parts[i];
      assert parts[i..][0] == s && parts[i..][1..] == parts[i + 1..];
      if !IsMacro(s) {
        continue;
      }
      p.Reset(s);
      var st := p.ParseStatement();
      if p.errors != [] {
        return BadParam(s, p.errors);
      }
      if st.typ == Path && i < |parts| - 1 {
        return PathInside(s);
      }
      PrefixedMore(params, Param(s, st), ReadParts(parts[i + 1..]));
      params := params + [Param(s, st)];
    }
    assert parts[|parts|..] == [];
    r := Accepted(params);
  }

  ghost function Prefixed(params: seq<Param>, later: Reading): Reading {
    if later.Accepted? then Accepted(params + later.params) else later
  }

  lemma PrefixedMore(params: seq<Param>, p: Param, later: Reading)
    ensures Prefixed(params, Also(p, later)) == Prefixed(params + [p], later)
  {
    if later.Accepted? {
      assert params + ([p] + later.params) == params + [p] + later.params;
    }
  }

  function Prefix(s: string, prefix: string): string {
    if prefix <= s then s else prefix + s
  }

  /** How the tree's paths write a parameter. */
  function Slot(st: State): string {
    if st.typ != Path then Prefix(st.name, ":")
    else if st.name == "" then "" else Prefix(st.name, "*")
  }

  predicate Misplaced(params: seq<Param>) {
    exists i :: 0 <= i < |params| - 1 && params[i].st.typ == Path
  }

  /** Each parameter's source replaced where it occurs first. */
  function Replaced(path: string, params: seq<Param>): string
    decreases |params|
  {
    if params == [] then path
    else Replaced(ReplaceFirst(path, params[0].src, Slot(params[0].st)), params[1..])
  }

  /** A path with parameters loses its last slash, and the byte before it. */
  function Untrailed(src: string, params: seq<Param>): string
    requires params != [] ==> |src| >= 2
  {
    if params != [] && src[|src| - 1] == '/' then src[..|src| - 2] else src
  }

  function Converted(src: string, params: seq<Param>): Option<string>
    requires params != [] ==> |src| >= 2
  {
    if Misplaced(params) then None else Some(Replaced(Untrailed(src, params), params))
  }

  method Convert(src: string, params: seq<Param>) returns (r: Option<string>)
    requires params != [] ==> |src| >= 2
    ensures r == Converted(src, params)
    ensures r.None? <==> exists i :: 0 <= i < |params| - 1 && params[i].st.typ == Path
  {
    var path := src;
    if |params| > 0 {
      if path[|path| - 1] == '/' {
        path := path[..|path| - 2];
      }
    }
    for i := 0 to |params|
      invariant forall j :: 0 <= j < i && j < |params| - 1 ==> params[j].st.typ != Path
      invariant Replaced(Untrailed(src, params), params) == Replaced(path, params[i..])
    {
      var p := params[i];
      assert params[i..][0] == p && params[i..][1..] == params[i + 1..];
      if p.st.typ == Path {
        if i != |params| - 1 {
          return None;
        }
        path := ReplaceFirst(path, p.src, if p.st.name == "" then "" else Prefix(p.st.name, "*"));
      } else {
        path := ReplaceFirst(path, p.src, Prefix(p.st.name, ":"));
      }
    }
    return Some(path);
  }

  // -------------------------------------------------------------------- what it means

  /** The part alone compiled. */
  function Compiled(part: string): string {
    if IsMacro(part) && ParseParam(part).Parsed? then Slot(ParseParam(part).st) else part
  }

  function CompiledAll(parts: seq<string>): (r: seq<string>)
    ensures |r| == |parts| && forall i :: 0 <= i < |parts| ==> r[i] == Compiled(parts[i])
  {
    seq(|parts|, i requires 0 <= i < |parts| => Compiled(parts[i]))
  }

  /** No part before a parameter has, once compiled, that parameter's source in it. */
  ghost predicate Unshadowed(parts: seq<string>) {
    forall i, j :: 0 <= i < j < |parts| && IsMacro(parts[j]) ==> !Contains(Compiled(parts[i]), parts[j])
  }

  ghost predicate Free(done: seq<string>, sub: string) {
    forall i :: 0 <= i < |done| ==> !Contains(done[i], sub)
  }

  lemma {:induction false} ReplacedConcat(path: string, a: seq<Param>, b: seq<Param>)
    ensures Replaced(path, a + b) == Replaced(Replaced(path, a), b)
    decreases |a|
  {
    if a == [] {
      assert a + b == b;
    } else {
      assert (a + b)[0] == a[0] && (a + b)[1..] == a[1..] + b;
      ReplacedConcat(ReplaceFirst(path, a[0].src, Slot(a[0].st)), a[1..], b);
    }
  }

  ghost predicate Unshadowing(done: seq<string>, rest: seq<string>) {
    Unshadowed(rest) && forall j :: 0 <= j < |rest| && IsMacro(rest[j]) ==> Free(done, rest[j])
  }

  lemma UnshadowingStep(done: seq<string>, rest: seq<string>)
    requires rest != []
    ensures Unshadowing(done, rest) <==>
              Unshadowing(done + [Compiled(rest[0])], rest[1..]) && (IsMacro(rest[0]) ==> Free(done, rest[0]))
  {
    var c, more := Compiled(rest[0]), done + [Compiled(rest[0])];
    var tail := rest[1..];
    assert forall j :: 0 < j < |rest| ==> rest[j] == tail[j - 1];
    assert forall j :: 0 <= j < |tail| ==> tail[j] == rest[j + 1];
    assert forall sub :: Free(more, sub) <==> Free(done, sub) && !Contains(c, sub) by {
      forall sub
        ensures Free(more, sub) <==> Free(done, sub) && !Contains(c, sub)
      {
        assert more[|done|] == c && forall i :: 0 <= i < |done| ==> more[i] == done[i];
      }
    }
    assert Unshadowed(rest) <==> Unshadowed(tail) && forall j :: 0 <= j < |tail| && IsMacro(tail[j]) ==> !Contains(c, tail[j]);
  }

  /** The parameters of parts that were all read. */
  function ParamsOf(parts: seq<string>): seq<Param> {
    if parts == [] then []
    else if IsMacro(parts[0]) && ParseParam(parts[0]).Parsed? then [Param(parts[0], ParseParam(parts[0]).st)] + ParamsOf(parts[1..])
    else ParamsOf(parts[1..])
  }

  ghost predicate Readable(part: string) {
    IsMacro(part) ==> ParseParam(part).Parsed? && ParseParam(part).st.name != ""
  }

  ghost predicate AllReadable(parts: seq<string>) {
    forall i :: 0 <= i < |parts| ==> Readable(parts[i])
  }

  lemma {:induction false} NameGiven(rest: string, len: int, st: State)
    requires ParseFrom(rest, len, st).Parsed? && ParseFrom(rest, len, st).st.errors == []
    ensures ParseFrom(rest, len, st).st.name != ""
    decreases |rest|
  {
    var (t, r) := Lex(rest, len);
    if t.typ != EOF {
      var turn := Take(t, r, len, st);
      NameGiven(turn.rest, len, turn.st);
    }
  }

  lemma AcceptedStep(parts: seq<string>)
    requires ReadParts(parts).Accepted? && parts != []
    ensures ReadParts(parts[1..]).Accepted? && Readable(parts[0])
    ensures IsMacro(parts[0]) ==>
              && (ParseParam(parts[0]).st.typ == Path ==> |parts| == 1)
              && ReadParts(parts).params == [Param(parts[0], ParseParam(parts[0]).st)] + ReadParts(parts[1..]).params
    ensures !IsMacro(parts[0]) ==> ReadParts(parts) == ReadParts(parts[1..])
  {
    if IsMacro(parts[0]) {
      NameGiven(parts[0], |parts[0]|, INITIAL);
    }
  }

  /** An accepted template has a name in every parameter. */
  lemma {:induction false} AcceptedParams(parts: seq<string>)
    requires ReadParts(parts).Accepted?
    ensures ReadParts(parts).params == ParamsOf(parts) && AllReadable(parts)
    decreases |parts|
  {
    if parts != [] {
      AcceptedStep(parts);
      AcceptedParams(parts[1..]);
      assert forall i :: 0 < i < |parts| ==> parts[i] == parts[1..][i - 1];
    }
  }

  /** Only the last parameter of an accepted template may take a whole path. */
  lemma {:induction false} AcceptedPlaced(parts: seq<string>)
    requires ReadParts(parts).Accepted?
    ensures !Misplaced(ReadParts(parts).params)
    decreases |parts|
  {
    if parts != [] {
      var all := ReadParts(parts).params;
      AcceptedStep(parts);
      AcceptedPlaced(parts[1..]);
      var later := ReadParts(parts[1..]).params;
      if IsMacro(parts[0]) {
        assert |parts| == 1 ==> later == [];
        assert forall i :: 0 < i < |all| ==> all[i] == later[i - 1];
      }
    }
  }

  lemma {:induction false} ParamsLength(parts: seq<string>)
    requires ReadParts(parts).Accepted?
    ensures ReadParts(parts).params != [] ==> |PathOf(parts)| >= 3
    decreases |parts|
  {
    if parts != [] {
      AcceptedStep(parts);
      ParamsLength(parts[1..]);
    }
  }

  // Replacing moves a string down in byte order: a `{` becomes a `:` or a `*`.

  ghost predicate Drops(a: string, b: string, k: nat) {
    k < |a| && k < |b| && a[..k] == b[..k] && a[k] < b[k]
  }

  ghost predicate Below(a: string, b: string) {
    exists k: nat :: Drops(a, b, k)
  }

  lemma BelowTrans(a: string, b: string, c: string)
    requires Below(a, b) && Below(b, c)
    ensures Below(a, c)
  {
    var i: nat :| Drops(a, b, i);
    var j: nat :| Drops(b, c, j);
    var k := if i < j then i else j;
    assert a[..k] == a[..i][..k] && b[..k] == b[..i][..k] && b[..k] == b[..j][..k] && c[..k] == c[..j][..k];
    assert i < j ==> b[..j][i] == c[..j][i];
    assert j < i ==> a[..i][j] == b[..i][j];
    assert Drops(a, c, k);
  }

  lemma BelowExtend(a: string, b: string, x: string, y: string)
    requires Below(a, b)
    ensures Below(a + x, b + y)
  {
    var k: nat :| Drops(a, b, k);
    assert (a + x)[..k] == a[..k] && (b + y)[..k] == b[..k];
    assert Drops(a + x, b + y, k);
  }

  ghost predicate Lowers(p: Param) {
    p.src != "" && p.src[0] == '{' && Slot(p.st) != "" && Slot(p.st)[0] < '{'
  }

  lemma ReplaceDrops(s: string, p: Param)
    requires Lowers(p) && Contains(s, p.src)
    ensures Below(ReplaceFirst(s, p.src, Slot(p.st)), s)
  {
    var k := IndexOf(s, p.src);
    var r := ReplaceFirst(s, p.src, Slot(p.st));
    assert s[k] == s[k..][0] == '{';
    assert r[..k] == s[..k] && r[k] == Slot(p.st)[0];
    assert Drops(r, s, k);
  }

  lemma {:induction false} ReplacedDrops(s: string, params: seq<Param>)
    requires forall i :: 0 <= i < |params| ==> Lowers(params[i])
    ensures Replaced(s, params) == s || Below(Replaced(s, params), s)
    decreases |params|
  {
    if params != [] {
      var r := ReplaceFirst(s, params[0].src, Slot(params[0].st));
      ReplacedDrops(r, params[1..]);
      if Contains(s, params[0].src) {
        ReplaceDrops(s, params[0]);
        if Replaced(r, params[1..]) != r {
          BelowTrans(Replaced(r, params[1..]), r, s);
        }
      }
    }
  }

  lemma MacroLowers(part: string)
    requires IsMacro(part) && Readable(part)
    ensures Lowers(Param(part, ParseParam(part).st))
  {
  }

  lemma {:induction false} ParamsLower(parts: seq<string>)
    requires AllReadable(parts)
    ensures forall i :: 0 <= i < |ParamsOf(parts)| ==> Lowers(ParamsOf(parts)[i])
    decreases |parts|
  {
    if parts != [] {
      assert Readable(parts[0]);
      ParamsLower(parts[1..]);
      if IsMacro(parts[0]) {
        MacroLowers(parts[0]);
      }
    }
  }

  /** The parameter at its own place, when nothing before shadows it. */
  lemma ReplaceOwn(done: seq<string>, rest: seq<string>, tail: seq<string>)
    requires Segs(rest) && rest != [] && IsMacro(rest[0]) && Readable(rest[0]) && Free(done, rest[0])
    ensures ReplaceFirst(PathOf(done + rest + tail), rest[0], Compiled(rest[0])) == PathOf(done + [Compiled(rest[0])] + rest[1..] + tail)
  {
    var src, slot := rest[0], Compiled(rest[0]);
    var all := done + rest + tail;
    Placed(done, rest, tail, slot);
    assert Free(all[..|done|], src);
    assert forall i :: 0 <= i < |done| ==> all[i] == all[..|done|][i];
    ReplaceSelf(src, slot);
    ReplaceInPath(all, |done|, src, slot);
  }

  lemma ReplaceSelf(src: string, slot: string)
    ensures Contains(src, src) && ReplaceFirst(src, src, slot) == slot
  {
    assert IndexOf(src, src) == 0;
    assert src[..0] == "" && src[|src|..] == "";
  }

  lemma Placed<T>(done: seq<T>, rest: seq<T>, tail: seq<T>, x: T)
    requires rest != []
    ensures (done + rest + tail)[|done|] == rest[0] && (done + rest + tail)[..|done|] == done
    ensures (done + rest + tail)[|done| := x] == done + [x] + rest[1..] + tail
  {
  }

  lemma FirstApart(done: seq<string>, rest: seq<string>, tail: seq<string>)
    requires rest != []
    ensures done + rest + tail == done + [rest[0]] + rest[1..] + tail
  {
    assert rest == [rest[0]] + rest[1..];
    Chunks(done, [rest[0]], rest[1..]);
  }

  lemma CompiledTail(rest: seq<string>)
    requires rest != []
    ensures CompiledAll(rest)[0] == Compiled(rest[0]) && CompiledAll(rest)[1..] == CompiledAll(rest[1..])
  {
  }

  /** Without shadowing, each parameter is replaced at its own place. */
  lemma {:induction false} UnshadowedReplaced(done: seq<string>, rest: seq<string>, tail: seq<string>)
    requires Segs(rest) && AllReadable(rest) && Unshadowing(done, rest)
    ensures Replaced(PathOf(done + rest + tail), ParamsOf(rest)) == PathOf(done + CompiledAll(rest) + tail)
    decreases |rest|
  {
    if rest == [] {
      assert done + rest + tail == done + CompiledAll(rest) + tail;
    } else {
      assert Readable(rest[0]);
      UnshadowingStep(done, rest);
      if IsMacro(rest[0]) {
        ReplaceOwn(done, rest, tail);
      }
      UnshadowedReplaced(done + [Compiled(rest[0])], rest[1..], tail);
      CompiledTail(rest);
      FirstApart(done, CompiledAll(rest), tail);
      FirstApart(done, rest, tail);
    }
  }

  lemma OccursWithin(a: string, b: string, c: string, sub: string)
    requires Contains(b, sub)
    ensures Contains(a + (b + c), sub)
  {
    var s, k := a + (b + c), IndexOf(b, sub);
    assert s[|a| + k..][..|sub|] == b[k..][..|sub|];
    assert sub <= s[|a| + k..];
  }

  lemma {:induction false} OccursInPath(segs: seq<string>, i: nat, sub: string)
    requires i < |segs| && Contains(segs[i], sub)
    ensures Contains(PathOf(segs), sub)
    decreases |segs|
  {
    if i == 0 {
      OccursWithin("/", segs[0], PathOf(segs[1..]), sub);
    } else {
      var p := PathOf(segs[1..]);
      OccursInPath(segs[1..], i - 1, sub);
      OccursWithin("/" + segs[0], p, "", sub);
      NoTail(p);
      Chunks("/", segs[0], p);
    }
  }

  /** An occurrence in the front is the one replaced. */
  lemma ReplaceInFront(a: string, b: string, sub: string, new': string)
    requires Contains(a, sub)
    ensures ReplaceFirst(a + b, sub, new') == ReplaceFirst(a, sub, new') + b
  {
    var s, k := a + b, IndexOf(a, sub);
    assert forall j :: 0 <= j <= |a| ==> s[j..] == a[j..] + b;
    assert sub <= s[k..];
    var m := IndexOf(s, sub);
    assert m <= k;
    assert a[m..] == s[m..][..|a| - m];
    assert sub <= a[m..];
    ReplaceFront(a, b, sub, new');
  }

  /** With shadowing, a parameter is replaced too early, and the path comes out lower, whatever follows the parts. */
  lemma {:induction false} ShadowedReplaced(done: seq<string>, rest: seq<string>, tail: seq<string>, y: string)
    requires Segs(rest) && AllReadable(rest) && !Unshadowing(done, rest)
    ensures Below(Replaced(PathOf(done + rest + tail), ParamsOf(rest)), PathOf(done + CompiledAll(rest)) + y)
    decreases |rest|
  {
    assert rest != [];
    assert Readable(rest[0]);
    UnshadowingStep(done, rest);
    if IsMacro(rest[0]) && !Free(done, rest[0]) {
      PathOfConcat(done + rest, tail);
      PathOfConcat(done, rest);
      PathOfConcat(done, CompiledAll(rest));
      Chunks(PathOf(done), PathOf(rest), PathOf(tail));
      Chunks(PathOf(done), PathOf(CompiledAll(rest)), y);
      ReplacedEarly(done, rest, PathOf(rest) + PathOf(tail), PathOf(CompiledAll(rest)) + y);
    } else {
      ShadowedStep(done, rest, tail);
      ShadowedReplaced(done + [Compiled(rest[0])], rest[1..], tail, y);
    }
  }

  lemma ShadowedStep(done: seq<string>, rest: seq<string>, tail: seq<string>)
    requires Segs(rest) && AllReadable(rest) && rest != [] && (IsMacro(rest[0]) ==> Free(done, rest[0]))
    ensures Replaced(PathOf(done + rest + tail), ParamsOf(rest)) ==
              Replaced(PathOf(done + [Compiled(rest[0])] + rest[1..] + tail), ParamsOf(rest[1..]))
    ensures done + CompiledAll(rest) == done + [Compiled(rest[0])] + CompiledAll(rest[1..])
  {
    assert Readable(rest[0]);
    if IsMacro(rest[0]) {
      ReplaceOwn(done, rest, tail);
    }
    FirstApart(done, rest, tail);
    CompiledTail(rest);
    FirstApart(done, CompiledAll(rest), []);
    NoTail(done + CompiledAll(rest));
    NoTail(done + [Compiled(rest[0])] + CompiledAll(rest[1..]));
  }

  lemma NoHead<T>(s: seq<T>)
    ensures [] + s == s
  {
  }

  lemma NoTail<T>(s: seq<T>)
    ensures s + [] == s
  {
  }

  /** A parameter whose source occurs in the front is replaced there, whatever follows the front. */
  lemma ReplacedEarly(done: seq<string>, rest: seq<string>, x: string, y: string)
    requires AllReadable(rest) && rest != [] && IsMacro(rest[0]) && !Free(done, rest[0])
    ensures Below(Replaced(PathOf(done) + x, ParamsOf(rest)), PathOf(done) + y)
  {
    var p, front := ParamsOf(rest)[0], PathOf(done);
    assert Readable(rest[0]);
    var i :| 0 <= i < |done| && Contains(done[i], rest[0]);
    OccursInPath(done, i, rest[0]);
    MacroLowers(rest[0]);
    ReplaceDrops(front, p);
    ReplaceInFront(front, x, p.src, Slot(p.st));
    var front' := ReplaceFirst(front, p.src, Slot(p.st));
    BelowExtend(front', front, x, y);
    ReplacedLower(front' + x, rest[1..], front + y);
  }

  /** Replacing more leaves a path below what it is below. */
  lemma ReplacedLower(path: string, parts: seq<string>, top: string)
    requires AllReadable(parts) && Below(path, top)
    ensures Below(Replaced(path, ParamsOf(parts)), top)
  {
    ParamsLower(parts);
    ReplacedDrops(path, ParamsOf(parts));
    if Replaced(path, ParamsOf(parts)) != path {
      BelowTrans(Replaced(path, ParamsOf(parts)), path, top);
    }
  }

  // ------------------------------------------------------------------- main results

  lemma {:induction false} SplitWhole(path: string)
    ensures "/" + path == PathOf(Split(path, '/'))
    decreases |path|
  {
    var e := Upto(path, '/');
    if e < |path| {
      var head, tail := path[..e], path[e + 1..];
      SplitWhole(tail);
      SplitStep(head, tail);
      Chunks(head, "/", tail);
      assert path == head + "/" + tail;
    } else {
      assert path + "" == path;
    }
  }

  lemma SplitStep(head: string, tail: string)
    requires "/" + tail == PathOf(Split(tail, '/'))
    ensures PathOf([head] + Split(tail, '/')) == "/" + (head + ("/" + tail))
  {
    assert ([head] + Split(tail, '/'))[1..] == Split(tail, '/');
  }

  lemma {:induction false} ReplacedSlash(path: string, params: seq<Param>)
    requires forall i :: 0 <= i < |params| ==> params[i].src != "" && '/' !in params[i].src
    ensures Replaced("/" + path, params) == "/" + Replaced(path, params)
    decreases |params|
  {
    if params != [] {
      var sub, slot := params[0].src, Slot(params[0].st);
      SlashFirst(path, sub);
      if Contains(path, sub) {
        ReplaceBehind("/", path, sub, slot);
      }
      ReplacedSlash(ReplaceFirst(path, sub, slot), params[1..]);
    }
  }

  lemma {:induction false} ParamsSegs(parts: seq<string>)
    requires Segs(parts)
    ensures forall i :: 0 <= i < |ParamsOf(parts)| ==> ParamsOf(parts)[i].src != "" && '/' !in ParamsOf(parts)[i].src
    decreases |parts|
  {
    if parts != [] {
      ParamsSegs(parts[1..]);
    }
  }

  /** Compiling never fails on a template the parser accepted. */
  lemma NeverErrs(path: string)
    requires ReadParts(Split(path, '/')).Accepted?
    ensures var params := ReadParts(Split(path, '/')).params; (params != [] ==> |path| >= 2) && Converted(path, params).Some?
  {
    SplitWhole(path);
    ParamsLength(Split(path, '/'));
    AcceptedPlaced(Split(path, '/'));
  }

  /** A path without a trailing slash is compiled part by part exactly when no part hides a later parameter. */
  lemma CompiledExactly(path: string)
    requires ReadParts(Split(path, '/')).Accepted?
    requires var params := ReadParts(Split(path, '/')).params; params != [] ==> |path| >= 2 && path[|path| - 1] != '/'
    ensures Converted(path, ReadParts(Split(path, '/')).params) == Some(Join(CompiledAll(Split(path, '/')), '/')) <==> Unshadowed(Split(path, '/'))
  {
    var parts := Split(path, '/');
    var r := Replaced(path, ReadParts(parts).params);
    NeverErrs(path);
    ReplacedWhole(path);
    JoinPath(CompiledAll(parts));
    WholeExactly(parts);
    if Unshadowed(parts) {
      SameBehind("/", r, Join(CompiledAll(parts), '/'));
    }
  }

  lemma ReplacedWhole(path: string)
    requires ReadParts(Split(path, '/')).Accepted?
    ensures "/" + Replaced(path, ReadParts(Split(path, '/')).params) == Replaced(PathOf(Split(path, '/')), ParamsOf(Split(path, '/')))
    ensures AllReadable(Split(path, '/'))
  {
    AcceptedParams(Split(path, '/'));
    SplitWhole(path);
    ParamsSegs(Split(path, '/'));
    ReplacedSlash(path, ParamsOf(Split(path, '/')));
  }

  lemma BelowNot(a: string)
    ensures !Below(a, a)
  {
  }

  lemma WholeExactly(parts: seq<string>)
    requires Segs(parts) && AllReadable(parts)
    ensures Replaced(PathOf(parts), ParamsOf(parts)) == PathOf(CompiledAll(parts)) <==> Unshadowed(parts)
  {
    NoneBefore(parts);
    if Unshadowed(parts) {
      UnshadowedReplaced([], parts, []);
      NoTail(parts);
      NoTail(CompiledAll(parts));
    } else {
      ShadowedBelow(parts, [], "");
      NoTail(parts);
      NoTail(PathOf(CompiledAll(parts)));
      BelowNot(PathOf(CompiledAll(parts)));
    }
  }

  lemma ShadowedBelow(parts: seq<string>, tail: seq<string>, y: string)
    requires Segs(parts) && AllReadable(parts) && !Unshadowed(parts)
    ensures Below(Replaced(PathOf(parts + tail), ParamsOf(parts)), PathOf(CompiledAll(parts)) + y)
  {
    NoneBefore(parts);
    ShadowedReplaced([], parts, tail, y);
  }

  lemma NoneBefore(parts: seq<string>)
    ensures Unshadowing([], parts) <==> Unshadowed(parts)
    ensures [] + parts == parts && [] + CompiledAll(parts) == CompiledAll(parts)
  {
    NoHead(parts);
    NoHead(CompiledAll(parts));
    forall sub
      ensures Free([], sub)
    {
    }
  }

  lemma SameBehind(a: string, b: string, c: string)
    requires a + b == a + c
    ensures b == c
  {
    assert b == (a + b)[|a|..] && c == (a + c)[|a|..];
  }

  /** Paths with no brace in their static parts and parameter names are never shadowed. */
  lemma PlainUnshadowed(parts: seq<string>)
    requires AllReadable(parts)
    requires forall i :: 0 <= i < |parts| ==> if IsMacro(parts[i]) then '{' !in ParseParam(parts[i]).st.name else '{' !in parts[i]
    ensures Unshadowed(parts)
  {
    forall i, j | 0 <= i < j < |parts| && IsMacro(parts[j])
      ensures !Contains(Compiled(parts[i]), parts[j])
    {
      var c := Compiled(parts[i]);
      assert Readable(parts[i]);
      assert '{' !in c;
      if Contains(c, parts[j]) {
        FirstByteIn(c, parts[j]);
      }
    }
  }

  lemma FirstByteIn(s: string, sub: string)
    requires sub != "" && Contains(s, sub)
    ensures sub[0] in s
  {
    var k := IndexOf(s, sub);
    assert s[k..][0] == sub[0];
  }

  /** What is left of the last part before a trailing slash. */
  function Remains(last: string): seq<string> {
    if last == "" then [] else [last[..|last| - 1]]
  }

  lemma {:induction false} ParamsConcat(a: seq<string>, b: seq<string>)
    ensures ParamsOf(a + b) == ParamsOf(a) + ParamsOf(b)
    decreases |a|
  {
    if a == [] {
      assert a + b == b;
    } else {
      assert (a + b)[0] == a[0] && (a + b)[1..] == a[1..] + b;
      ParamsConcat(a[1..], b);
    }
  }

  /** Dropping the last slash and the byte before it. */
  lemma TrailingCut(path: string, front: seq<string>, last: string)
    requires "/" + path == PathOf(front + [last, ""]) && |path| >= 2
    ensures path[|path| - 1] == '/' && "/" + path[..|path| - 2] == PathOf(front + Remains(last))
  {
    var p, whole := PathOf(front), "/" + path;
    PathOfConcat(front, [last, ""]);
    PathOfConcat(front, Remains(last));
    PathOfPair(last);
    PathOfRemains(last);
    assert whole == p + ("/" + last + "/");
    CutTwo(p, "/" + last);
    assert whole[..|whole| - 2] == "/" + path[..|path| - 2];
  }

  lemma CutTwo(p: string, q: string)
    requires q != ""
    ensures var s := p + (q + "/"); s[|s| - 1] == '/' && s[..|s| - 2] == p + q[..|q| - 1]
  {
  }

  lemma PathOfPair(last: string)
    ensures PathOf([last, ""]) == "/" + last + "/"
  {
    assert [last, ""][1..] == [""];
    assert PathOf([""]) == "/" + ("" + "") == "/";
  }

  lemma PathOfRemains(last: string)
    ensures PathOf(Remains(last)) == ("/" + last)[..|last|]
  {
    if last != "" {
      var z := last[..|last| - 1];
      assert PathOf([z]) == "/" + (z + "");
    }
  }

  lemma PathOfOne(x: string)
    ensures PathOf([x]) == "/" + x
  {
    assert x + "" == x;
  }

  lemma LastParams(last: string)
    requires Readable(last)
    ensures ParamsOf([last, ""]) == if IsMacro(last) then [Param(last, ParseParam(last).st)] else []
  {
    assert [last, ""][1..] == [""];
    assert [""][1..] == [];
  }

  /** What is left of a parameter is never replaced. */
  lemma RemainsKept(done: seq<string>, last: string)
    requires Readable(last) && '/' !in last && (IsMacro(last) ==> Free(done, last))
    ensures Replaced(PathOf(done + Remains(last)), ParamsOf([last, ""])) == PathOf(done + Remains(last))
  {
    LastParams(last);
    if IsMacro(last) {
      var all := done + Remains(last);
      forall i | 0 <= i < |all|
        ensures !Contains(all[i], last)
      {
        if i >= |done| {
          assert all[i] == Remains(last)[i - |done|];
        }
      }
      NoneInPath(all, last);
      assert ParamsOf([last, ""])[1..] == [];
    }
  }

  lemma RemainsDiffer(done: seq<string>, last: string)
    requires Readable(last)
    ensures PathOf(done + Remains(last)) != PathOf(done + [Compiled(last)])
  {
    var c := Compiled(last);
    PathOfConcat(done, Remains(last));
    PathOfConcat(done, [c]);
    PathOfOne(c);
    PathOfRemains(last);
    if IsMacro(last) {
      MacroLowers(last);
      assert ("/" + last)[..|last|][1] == '{';
      assert ("/" + c)[1] < '{';
    }
    if PathOf(done + Remains(last)) == PathOf(done + [c]) {
      SameBehind(PathOf(done), ("/" + last)[..|last|], "/" + c);
    }
  }

  /** What is left is not the part by part path, shadowed or not. */
  lemma TrailingDiffers(front: seq<string>, last: string)
    requires Segs(front + [last, ""]) && AllReadable(front + [last, ""])
    ensures Replaced(PathOf(front + Remains(last)), ParamsOf(front + [last, ""])) != PathOf(CompiledAll(front) + [Compiled(last)])
  {
    var done, top := CompiledAll(front), PathOf(CompiledAll(front) + [Compiled(last)]);
    FrontParts(front, last);
    ParamsConcat(front, [last, ""]);
    ReplacedConcat(PathOf(front + Remains(last)), ParamsOf(front), ParamsOf([last, ""]));
    PathOfConcat(done, [Compiled(last)]);
    BelowNot(top);
    if !Unshadowed(front) {
      ShadowedBelow(front, Remains(last), PathOf([Compiled(last)]));
      ReplacedLower(Replaced(PathOf(front + Remains(last)), ParamsOf(front)), [last, ""], top);
    } else {
      NoneBefore(front);
      UnshadowedReplaced([], front, Remains(last));
      LastDiffers(done, last);
    }
  }

  lemma FrontParts(front: seq<string>, last: string)
    requires Segs(front + [last, ""]) && AllReadable(front + [last, ""])
    ensures Segs(front) && AllReadable(front) && '/' !in last && Readable(last) && AllReadable([last, ""])
  {
    var parts := front + [last, ""];
    assert parts[|front|] == last && forall i :: 0 <= i < |front| ==> parts[i] == front[i];
  }

  lemma LastDiffers(done: seq<string>, last: string)
    requires Readable(last) && '/' !in last
    ensures Replaced(PathOf(done + Remains(last)), ParamsOf([last, ""])) != PathOf(done + [Compiled(last)])
  {
    if IsMacro(last) && !Free(done, last) {
      PathOfConcat(done, Remains(last));
      PathOfConcat(done, [Compiled(last)]);
      assert [last, ""][0] == last && AllReadable([last, ""]);
      ReplacedEarly(done, [last, ""], PathOf(Remains(last)), PathOf([Compiled(last)]));
      BelowNot(PathOf(done + [Compiled(last)]));
    } else {
      RemainsKept(done, last);
      RemainsDiffer(done, last);
    }
  }

  lemma UnshadowedFront(front: seq<string>, last: string)
    requires Unshadowed(front + [last, ""])
    ensures Unshadowed(front) && (IsMacro(last) ==> Free(CompiledAll(front), last))
  {
    var parts := front + [last, ""];
    assert parts[|front|] == last && forall i :: 0 <= i < |front| ==> parts[i] == front[i];
  }

  /** A trailing slash costs the last parameter its brace, or the last static part its last byte, and the result is
      never the part by part one. */
  lemma TrailingSlash(path: string, front: seq<string>, last: string)
    requires Split(path, '/') == front + [last, ""] && ReadParts(Split(path, '/')).Accepted?
    requires ReadParts(Split(path, '/')).params != [] && |path| >= 2
    ensures Unshadowed(Split(path, '/')) ==>
              Converted(path, ReadParts(Split(path, '/')).params) == Some(Join(CompiledAll(front) + Remains(last), '/'))
    ensures Converted(path, ReadParts(Split(path, '/')).params) != Some(Join(CompiledAll(front) + [Compiled(last)], '/'))
  {
    var parts, done := Split(path, '/'), CompiledAll(front);
    NeverErrs(path);
    TrailingWhole(path, front, last);
    JoinPath(done + [Compiled(last)]);
    TrailingDiffers(front, last);
    if Unshadowed(parts) {
      TrailingParts(parts, front, last);
      SomeLeft(parts, front, last);
      JoinPath(done + Remains(last));
      SameBehind("/", Replaced(path[..|path| - 2], ReadParts(parts).params), Join(done + Remains(last), '/'));
    }
  }

  lemma SomeLeft(parts: seq<string>, front: seq<string>, last: string)
    requires parts == front + [last, ""] && ReadParts(parts).Accepted? && ReadParts(parts).params != []
    ensures CompiledAll(front) + Remains(last) != []
  {
    if front == [] && last == "" {
      AcceptedParams(parts);
      assert parts == [last, ""];
      LastParams("");
    }
  }

  lemma TrailingWhole(path: string, front: seq<string>, last: string)
    requires Split(path, '/') == front + [last, ""] && ReadParts(Split(path, '/')).Accepted? && |path| >= 2
    ensures path[|path| - 1] == '/' && Segs(Split(path, '/')) && AllReadable(Split(path, '/'))
    ensures "/" + Replaced(path[..|path| - 2], ReadParts(Split(path, '/')).params) ==
              Replaced(PathOf(front + Remains(last)), ParamsOf(Split(path, '/')))
  {
    SplitWhole(path);
    TrailingCut(path, front, last);
    AcceptedParams(Split(path, '/'));
    ParamsSegs(Split(path, '/'));
    ReplacedSlash(path[..|path| - 2], ReadParts(Split(path, '/')).params);
  }

  lemma TrailingParts(parts: seq<string>, front: seq<string>, last: string)
    requires parts == front + [last, ""] && Segs(parts) && AllReadable(parts) && Unshadowed(parts)
    ensures Replaced(PathOf(front + Remains(last)), ParamsOf(parts)) == PathOf(CompiledAll(front) + Remains(last))
    ensures Readable(last)
  {
    assert parts[|front|] == last && forall i :: 0 <= i < |front| ==> parts[i] == front[i];
    UnshadowedFront(front, last);
    NoneBefore(front);
    UnshadowedReplaced([], front, Remains(last));
    ParamsConcat(front, [last, ""]);
    ReplacedConcat(PathOf(front + Remains(last)), ParamsOf(front), ParamsOf([last, ""]));
    RemainsKept(CompiledAll(front), last);
  }

  // ------------------------------------------------- every template with parameters

  /** The parts of a template, less the empty one behind a trailing slash. */
  function Kept(parts: seq<string>): seq<string> {
    if |parts| > 1 && parts[|parts| - 1] == "" then parts[..|parts| - 1] else parts
  }

  lemma PathEnd(segs: seq<string>)
    requires segs != [] && Segs(segs)
    ensures PathOf(segs) != "" && (PathOf(segs)[|PathOf(segs)| - 1] == '/' <==> segs[|segs| - 1] == "")
  {
    var n := |segs| - 1;
    var last := segs[n];
    assert segs == segs[..n] + [last];
    PathOfConcat(segs[..n], [last]);
    PathOfOne(last);
    assert PathOf(segs)[|PathOf(segs)| - 1] == ("/" + last)[|last|];
  }

  /** A template ends in a slash exactly when its last part of several is empty. */
  lemma SlashEnd(path: string)
    requires path != ""
    ensures var parts := Split(path, '/'); path[|path| - 1] == '/' <==> |parts| > 1 && parts[|parts| - 1] == ""
  {
    var parts := Split(path, '/');
    SplitWhole(path);
    PathEnd(parts);
    assert ("/" + path)[|path|] == path[|path| - 1];
    if |parts| == 1 {
      PathOfOne(parts[0]);
      assert PathOf(parts) == "/" + parts[0];
      assert |path| == |parts[0]|;
    }
  }

  lemma KeptParts(parts: seq<string>)
    requires |parts| > 1 && parts[|parts| - 1] == ""
    ensures var front, last := parts[..|parts| - 2], parts[|parts| - 2];
            parts == front + [last, ""] && CompiledAll(Kept(parts)) == CompiledAll(front) + [Compiled(last)]
  {
    var n := |parts| - 2;
    assert Kept(parts) == parts[..n + 1];
    assert parts[..n + 1] == parts[..n] + [parts[n]];
  }

  /** A template with parameters is compiled part by part exactly when it has no trailing slash and no part hides a later
      parameter. */
  lemma CompiledWhole(path: string)
    requires ReadParts(Split(path, '/')).Accepted? && ReadParts(Split(path, '/')).params != []
    ensures |path| >= 2
    ensures Converted(path, ReadParts(Split(path, '/')).params) == Some(Join(CompiledAll(Kept(Split(path, '/'))), '/')) <==>
              path[|path| - 1] != '/' && Unshadowed(Split(path, '/'))
  {
    var parts := Split(path, '/');
    NeverErrs(path);
    SlashEnd(path);
    if path[|path| - 1] == '/' {
      KeptParts(parts);
      TrailingSlash(path, parts[..|parts| - 2], parts[|parts| - 2]);
    } else {
      CompiledExactly(path);
    }
  }
}
